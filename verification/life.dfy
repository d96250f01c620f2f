/** The generation rule: every cell of the next generation is computed from
    the previous generation alone. An alive cell survives with 5 to 7 alive
    neighbours; an empty cell becomes alive with 6 or 7. */
module Life {
  import opened Layout
  import opened GridState
  import opened Neighbors
  import opened Census

  const SURVIVE_MIN: nat := 5
  const SURVIVE_MAX: nat := 7
  const BIRTH_MIN: nat := 6
  const BIRTH_MAX: nat := 7

  /** The next state of one cell, given its current state and its number of
      alive neighbours. Nothing is alive next outside [5, 7] neighbours, and
      every count at which an empty cell is born also keeps an alive one. */
  function Rule(current: Cell, neighbors: nat): (next: Cell)
    ensures next == Alive ==> SURVIVE_MIN <= neighbors <= SURVIVE_MAX
    ensures BIRTH_MIN <= neighbors <= BIRTH_MAX ==> next == Alive
    ensures current == Empty && neighbors < BIRTH_MIN ==> next == Empty
  {
    match current
    case Alive => if SURVIVE_MIN <= neighbors <= SURVIVE_MAX then Alive else Empty
    case Empty => if BIRTH_MIN <= neighbors <= BIRTH_MAX then Alive else Empty
  }

  /** The next generation: each storage slot gets the rule applied to the
      slot's old cell and the old neighbour count of its coordinate. */
  function Step(g: Generation): (next: Generation)
    requires g.Valid()
    ensures next.Valid()
    ensures next.width == g.width && next.height == g.height && next.depth == g.depth
    ensures |next.cells| == |g.cells|
  {
    g.(cells := seq(|g.cells|, i requires 0 <= i < |g.cells| =>
      IndexDecode(g.width, g.height, g.depth, i);
      var p := Decode(g.width, g.height, i);
      Rule(g.cells[i], NeighborCount(g, p.0, p.1, p.2))))
  }

  /** Each coordinate's new cell follows the survival and birth bands,
      applied to the old cell and the old neighbour count. */
  lemma StepAt(g: Generation, x: int, y: int, z: int)
    requires g.Valid() && InBounds(g.width, g.height, g.depth, x, y, z)
    ensures Step(g).CellAt(x, y, z) == Rule(g.CellAt(x, y, z), NeighborCount(g, x, y, z))
    ensures Step(g).CellAt(x, y, z) == Alive <==>
              (g.CellAt(x, y, z) == Alive && 5 <= NeighborCount(g, x, y, z) <= 7) ||
              (g.CellAt(x, y, z) == Empty && 6 <= NeighborCount(g, x, y, z) <= 7)
  {
    DecodeIndex(g.width, g.height, g.depth, x, y, z);
    IndexInRange(g.width, g.height, g.depth, x, y, z);
  }

  /** A coordinate's alive neighbours, plus the coordinate itself when it is
      alive, are among the alive cells of the grid. */
  lemma NeighborCountAtMostAlive(g: Generation, x: int, y: int, z: int)
    requires g.Valid() && InBounds(g.width, g.height, g.depth, x, y, z)
    ensures NeighborCount(g, x, y, z) + (if g.AliveAt(x, y, z) then 1 else 0) <= CountAlive(g.cells)
  {
    NeighborCountIsCard(g, x, y, z);
    AliveCoordsCard(g);
    var around := AliveNeighbors(g, x, y, z);
    var all := AliveCoords(g);
    var self: set<(int, int, int)> := if g.AliveAt(x, y, z) then {(x, y, z)} else {};
    assert around + self <= all;
    assert around !! self;
    assert |around + self| == |around| + |self|;
    SubsetCard(around + self, all);
  }

  lemma SubsetCard(a: set<(int, int, int)>, b: set<(int, int, int)>)
    requires a <= b
    ensures |a| <= |b|
  {
    assert b == a + (b - a);
  }

  /** A grid with at most five alive cells is empty one generation later:
      an alive cell then has at most four alive neighbours, an empty one at
      most five. */
  lemma SparseDies(g: Generation)
    requires g.Valid() && CountAlive(g.cells) <= 5
    ensures AllEmpty(Step(g).cells)
  {
    var next := Step(g);
    forall i | 0 <= i < |next.cells| ensures next.cells[i] == Empty {
      IndexDecode(g.width, g.height, g.depth, i);
      var p := Decode(g.width, g.height, i);
      NeighborCountAtMostAlive(g, p.0, p.1, p.2);
    }
  }

  /** The grid after k generations. */
  function Run(g: Generation, k: nat): (r: Generation)
    requires g.Valid()
    ensures r.Valid()
    decreases k
  {
    if k == 0 then g else Run(Step(g), k - 1)
  }

  /** An all-empty grid stays all-empty for any number of generations:
      zero neighbours never reach the birth band. */
  lemma {:induction false} EmptyStaysEmpty(g: Generation, k: nat)
    requires g.Valid() && AllEmpty(g.cells)
    ensures AllEmpty(Run(g, k).cells)
    decreases k
  {
    if k > 0 {
      CountAliveIsCard(g.cells);
      SparseDies(g);
      EmptyStaysEmpty(Step(g), k - 1);
    }
  }

  /** The 3x3x3 grid whose only alive cell is the centre (1, 1, 1). */
  function LoneCentre(): (g: Generation)
    ensures g.Valid()
  {
    Generation(3, 3, 3, seq(27, i => if i == 13 then Alive else Empty))
  }

  /** In the lone-centre grid the centre has no alive neighbour, and one
      generation later no cell is alive. */
  lemma LoneCentreDies()
    ensures NeighborCount(LoneCentre(), 1, 1, 1) == 0
    ensures CountAlive(Step(LoneCentre()).cells) == 0
  {
    var g := LoneCentre();
    assert AliveIndices(g.cells) == {13};
    CountAliveIsCard(g.cells);
    assert Index(3, 3, 1, 1, 1) == 13;
    NeighborCountAtMostAlive(g, 1, 1, 1);
    SparseDies(g);
    CountAliveIsCard(Step(g).cells);
  }
}
