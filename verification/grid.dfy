/** The grid object: fixed dimensions and a flat vector of cells that is
    written in place by single-cell writes and replaced wholesale by a
    generation step. */
module Grid {
  import opened Layout
  import opened GridState
  import opened Neighbors
  import Census
  import opened Life

  /** The first k slots of `current` already hold their next-generation
      value; the rest still hold the old one. */
  ghost predicate UpdatedUpTo(current: seq<Cell>, old_: seq<Cell>, next: seq<Cell>, k: int)
  {
    |current| == |old_| == |next| && 0 <= k <= |old_| &&
    (forall i | 0 <= i < k :: current[i] == next[i]) &&
    (forall i | k <= i < |old_| :: current[i] == old_[i])
  }

  lemma UpdatedOneMore(current: seq<Cell>, old_: seq<Cell>, next: seq<Cell>, k: int, v: Cell)
    requires UpdatedUpTo(current, old_, next, k) && k < |old_| && v == next[k]
    ensures UpdatedUpTo(current[k := v], old_, next, k + 1)
  {
  }

  lemma UpdatedAll(current: seq<Cell>, old_: seq<Cell>, next: seq<Cell>)
    requires UpdatedUpTo(current, old_, next, |old_|)
    ensures current == next
  {
  }

  class Grid3D {
    const width: nat
    const height: nat
    const depth: nat
    var cells: seq<Cell>

    /** One cell per coordinate. */
    ghost predicate Valid()
      reads this
    {
      State().Valid()
    }

    /** The current generation as a value. */
    function State(): Generation
      reads this
    {
      Generation(width, height, depth, cells)
    }

    /** A grid of the given dimensions with every cell empty. */
    constructor (width: nat, height: nat, depth: nat)
      ensures Valid()
      ensures this.width == width && this.height == height && this.depth == depth
      ensures |cells| == width * height * depth && AllEmpty(cells)
      ensures Dimensions() == (width, height, depth)
    {
      this.width := width;
      this.height := height;
      this.depth := depth;
      cells := seq(width * height * depth, _ => Empty);
    }

    /** The cell at (x, y, z), or None when any coordinate is out of range. */
    function Get(x: nat, y: nat, z: nat): (r: Option<Cell>)
      reads this
      requires Valid()
      ensures r == None <==> x >= width || y >= height || z >= depth
      ensures r != None ==> r == Some(State().CellAt(x, y, z))
    {
      if x >= width || y >= height || z >= depth then None
      else
        IndexInRange(width, height, depth, x, y, z);
        Some(cells[Index(width, height, x, y, z)])
    }

    /** Writes the cell at (x, y, z) and reports true; reports false and
        changes nothing when any coordinate is out of range. */
    method Set(x: nat, y: nat, z: nat, cell: Cell) returns (ok: bool)
      requires Valid()
      modifies this
      ensures Valid()
      ensures ok <==> x < width && y < height && z < depth
      ensures !ok ==> cells == old(cells)
      ensures ok ==> Get(x, y, z) == Some(cell)
      ensures forall a: nat, b: nat, c: nat | (a, b, c) != (x, y, z) :: Get(a, b, c) == old(Get(a, b, c))
    {
      if x >= width || y >= height || z >= depth {
        return false;
      }
      IndexInRange(width, height, depth, x, y, z);
      var index := Index(width, height, x, y, z);
      cells := cells[index := cell];
      forall a: nat, b: nat, c: nat | (a, b, c) != (x, y, z)
        ensures Get(a, b, c) == old(Get(a, b, c))
      {
        if InBounds(width, height, depth, a, b, c) {
          IndexInjective(width, height, depth, x, y, z, a, b, c);
          IndexInRange(width, height, depth, a, b, c);
        }
      }
      return true;
    }

    /** The number of alive cells among the 26 coordinates around (x, y, z)
        that lie inside the grid, visited dz outermost, then dy, then dx. */
    method CountAliveNeighbors(x: nat, y: nat, z: nat) returns (count: nat)
      requires Valid()
      ensures count == NeighborCount(State(), x, y, z)
    {
      ghost var g := State();
      count := 0;
      var dz := -1;
      while dz <= 1
        invariant -1 <= dz <= 2 && State() == g
        invariant count == CubeSum(g, x, y, z, dz + 1)
      {
        var dy := -1;
        while dy <= 1
          invariant -1 <= dy <= 2 && State() == g
          invariant count == CubeSum(g, x, y, z, dz + 1) + PlaneSum(g, x, y, z, dz, dy + 1)
        {
          var dx := -1;
          while dx <= 1
            invariant -1 <= dx <= 2 && State() == g
            invariant count == CubeSum(g, x, y, z, dz + 1) + PlaneSum(g, x, y, z, dz, dy + 1)
                               + RowSum(g, x, y, z, dz, dy, dx + 1)
          {
            var alive := NeighborAlive(x, y, z, dx, dy, dz);
            count := count + alive;
            SumsStep(g, x, y, z, dz, dy, dx);
            dx := dx + 1;
          }
          dy := dy + 1;
        }
        dz := dz + 1;
      }
    }

    /** One step of the neighbour loop: 1 when offset (dx, dy, dz) is not
        the cell itself and reaches an alive cell inside the grid, else 0. */
    method NeighborAlive(x: nat, y: nat, z: nat, dx: int, dy: int, dz: int) returns (alive: nat)
      requires Valid()
      ensures alive == Contribution(State(), x, y, z, dx, dy, dz)
    {
      alive := 0;
      if dx == 0 && dy == 0 && dz == 0 {
        return;
      }
      var nx, ny, nz := x + dx, y + dy, z + dz;
      if 0 <= nx < width && 0 <= ny < height && 0 <= nz < depth {
        var neighbor := Get(nx, ny, nz);
        if neighbor == Some(Alive) {
          alive := 1;
        }
      }
    }

    /** Advances one generation: every new cell is computed from the old
        generation into a copy, and the copy replaces the cells at the end. */
    method Update()
      requires Valid()
      modifies this
      ensures Valid()
      ensures State() == Step(old(State()))
    {
      ghost var g := State();
      ghost var next := Step(g).cells;
      ghost var k := 0;
      var newCells := cells;
      var z := 0;
      while z < depth
        invariant 0 <= z <= depth && State() == g
        invariant k == z * (width * height)
        invariant UpdatedUpTo(newCells, g.cells, next, k)
      {
        var y := 0;
        while y < height
          invariant 0 <= y <= height && State() == g
          invariant k == z * (width * height) + y * width
          invariant UpdatedUpTo(newCells, g.cells, next, k)
        {
          var x := 0;
          while x < width
            invariant 0 <= x <= width && State() == g
            invariant k == z * (width * height) + y * width + x
            invariant UpdatedUpTo(newCells, g.cells, next, k)
          {
            var neighbors := CountAliveNeighbors(x, y, z);
            var current := Get(x, y, z);
            var index := Index(width, height, x, y, z);
            UpdateSlot(g, x, y, z, k, neighbors);
            UpdatedOneMore(newCells, g.cells, next, index, Rule(current.value, neighbors));
            newCells := newCells[index := Rule(current.value, neighbors)];
            x := x + 1;
            k := k + 1;
          }
          assert (y + 1) * width == y * width + width;
          y := y + 1;
        }
        assert (z + 1) * (width * height) == z * (width * height) + height * width;
        z := z + 1;
      }
      assert depth * (width * height) == width * height * depth;
      assert k == |g.cells|;
      UpdatedAll(newCells, g.cells, next);
      cells := newCells;
    }

    /** The number of alive cells in the whole grid. */
    function CountAlive(): (n: nat)
      reads this
      requires Valid()
      ensures n == |Census.AliveIndices(cells)|
      ensures n <= width * height * depth
    {
      Census.CountAliveIsCard(cells);
      Census.CountAlive(cells)
    }

    /** The dimensions, which are fixed for the grid's lifetime. */
    function Dimensions(): (dims: (nat, nat, nat))
      reads this
      requires Valid()
      ensures dims.0 * dims.1 * dims.2 == |cells|
    {
      (width, height, depth)
    }

    /** Every cell with its coordinate, z outermost, then y, then x: the
        k-th tuple is the coordinate stored at index k and its cell. */
    function IterCells(): (tuples: seq<(nat, nat, nat, Cell)>)
      reads this
      requires Valid()
      ensures |tuples| == |cells|
      ensures forall k | 0 <= k < |tuples| ::
        InBounds(width, height, depth, tuples[k].0, tuples[k].1, tuples[k].2) &&
        Index(width, height, tuples[k].0, tuples[k].1, tuples[k].2) == k &&
        tuples[k].3 == cells[k]
    {
      Census.EnumerateLayout(State());
      Census.Enumerate(State())
    }
  }

  lemma SumsStep(g: Generation, x: int, y: int, z: int, dz: int, dy: int, dx: int)
    requires g.Valid() && -1 <= dz <= 1 && -1 <= dy <= 1 && -1 <= dx <= 1
    ensures RowSum(g, x, y, z, dz, dy, dx + 2) == RowSum(g, x, y, z, dz, dy, dx + 1) + Contribution(g, x, y, z, dx, dy, dz)
    ensures PlaneSum(g, x, y, z, dz, dy + 2) == PlaneSum(g, x, y, z, dz, dy + 1) + RowSum(g, x, y, z, dz, dy, 3)
    ensures CubeSum(g, x, y, z, dz + 2) == CubeSum(g, x, y, z, dz + 1) + PlaneSum(g, x, y, z, dz, 3)
  {
  }

  /** The slot the loops reach at (x, y, z) is that coordinate's index, and
      the rule applied there is the one the next generation holds. */
  lemma UpdateSlot(g: Generation, x: int, y: int, z: int, k: int, neighbors: nat)
    requires g.Valid() && InBounds(g.width, g.height, g.depth, x, y, z)
    requires k == z * (g.width * g.height) + y * g.width + x
    requires neighbors == NeighborCount(g, x, y, z)
    ensures k == Index(g.width, g.height, x, y, z) && 0 <= k < |g.cells|
    ensures Step(g).cells[k] == Rule(g.cells[k], neighbors)
  {
    var w, h := g.width, g.height;
    IndexSplit(w, h, x, y, z);
    IndexInRange(w, h, g.depth, x, y, z);
    StepAt(g, x, y, z);
    assert g.CellAt(x, y, z) == g.cells[k];
    assert Step(g).CellAt(x, y, z) == Step(g).cells[k];
  }
}
