/** The 26-neighbour count of a coordinate. The count is defined twice:
    as the sum the grid's triple loop accumulates (offsets dz outermost, then
    dy, then dx, each running -1, 0, 1, with (0, 0, 0) skipped), and as the
    size of the set of alive in-bounds coordinates at Chebyshev distance one.
    NeighborCountIsCard shows the two agree. */
module Neighbors {
  import opened Layout
  import opened GridState

  /** What offset (dx, dy, dz) adds to the count: nothing for the cell
      itself, nothing outside the grid, one for an alive cell. */
  function Contribution(g: Generation, x: int, y: int, z: int, dx: int, dy: int, dz: int): (r: nat)
    requires g.Valid()
    ensures r <= 1
    ensures dx == 0 && dy == 0 && dz == 0 ==> r == 0
    ensures r == 1 ==> InBounds(g.width, g.height, g.depth, x + dx, y + dy, z + dz)
  {
    if dx == 0 && dy == 0 && dz == 0 then 0
    else if g.AliveAt(x + dx, y + dy, z + dz) then 1
    else 0
  }

  /** The first n offsets dx = -1, 0, 1 of the row (dy, dz). */
  function RowSum(g: Generation, x: int, y: int, z: int, dz: int, dy: int, n: nat): nat
    requires g.Valid() && n <= 3
  {
    if n == 0 then 0
    else RowSum(g, x, y, z, dz, dy, n - 1) + Contribution(g, x, y, z, n - 2, dy, dz)
  }

  /** The first n rows dy = -1, 0, 1 of the plane dz. */
  function PlaneSum(g: Generation, x: int, y: int, z: int, dz: int, n: nat): nat
    requires g.Valid() && n <= 3
  {
    if n == 0 then 0
    else PlaneSum(g, x, y, z, dz, n - 1) + RowSum(g, x, y, z, dz, n - 2, 3)
  }

  /** The first n planes dz = -1, 0, 1. */
  function CubeSum(g: Generation, x: int, y: int, z: int, n: nat): nat
    requires g.Valid() && n <= 3
  {
    if n == 0 then 0
    else CubeSum(g, x, y, z, n - 1) + PlaneSum(g, x, y, z, n - 2, 3)
  }

  /** The number of alive neighbours of (x, y, z), in loop order. No
      coordinate has more than 26. */
  function NeighborCount(g: Generation, x: int, y: int, z: int): (r: nat)
    requires g.Valid()
    ensures r <= 26
  {
    CubeSumBound(g, x, y, z, 3);
    CubeSum(g, x, y, z, 3)
  }

  /** The alive coordinates other than (x, y, z) inside the box
      [xlo, xhi) x [ylo, yhi) x [zlo, zhi). */
  ghost function Box(g: Generation, x: int, y: int, z: int,
                     xlo: int, xhi: int, ylo: int, yhi: int, zlo: int, zhi: int): set<(int, int, int)>
    requires g.Valid()
  {
    set nx: int, ny: int, nz: int
      | xlo <= nx < xhi && ylo <= ny < yhi && zlo <= nz < zhi
        && (nx, ny, nz) != (x, y, z) && g.AliveAt(nx, ny, nz)
      :: (nx, ny, nz)
  }

  /** The alive in-bounds neighbours of (x, y, z): every coordinate that
      differs from it by at most one on each axis, except itself. */
  ghost function AliveNeighbors(g: Generation, x: int, y: int, z: int): set<(int, int, int)>
    requires g.Valid()
  {
    Box(g, x, y, z, x - 1, x + 2, y - 1, y + 2, z - 1, z + 2)
  }

  lemma SplitX(g: Generation, x: int, y: int, z: int,
               xlo: int, xmid: int, xhi: int, ylo: int, yhi: int, zlo: int, zhi: int)
    requires g.Valid() && xlo <= xmid <= xhi
    ensures |Box(g, x, y, z, xlo, xhi, ylo, yhi, zlo, zhi)|
         == |Box(g, x, y, z, xlo, xmid, ylo, yhi, zlo, zhi)|
          + |Box(g, x, y, z, xmid, xhi, ylo, yhi, zlo, zhi)|
  {
    var a := Box(g, x, y, z, xlo, xmid, ylo, yhi, zlo, zhi);
    var b := Box(g, x, y, z, xmid, xhi, ylo, yhi, zlo, zhi);
    assert Box(g, x, y, z, xlo, xhi, ylo, yhi, zlo, zhi) == a + b;
    assert a !! b;
  }

  lemma SplitY(g: Generation, x: int, y: int, z: int,
               xlo: int, xhi: int, ylo: int, ymid: int, yhi: int, zlo: int, zhi: int)
    requires g.Valid() && ylo <= ymid <= yhi
    ensures |Box(g, x, y, z, xlo, xhi, ylo, yhi, zlo, zhi)|
         == |Box(g, x, y, z, xlo, xhi, ylo, ymid, zlo, zhi)|
          + |Box(g, x, y, z, xlo, xhi, ymid, yhi, zlo, zhi)|
  {
    var a := Box(g, x, y, z, xlo, xhi, ylo, ymid, zlo, zhi);
    var b := Box(g, x, y, z, xlo, xhi, ymid, yhi, zlo, zhi);
    assert Box(g, x, y, z, xlo, xhi, ylo, yhi, zlo, zhi) == a + b;
    assert a !! b;
  }

  lemma SplitZ(g: Generation, x: int, y: int, z: int,
               xlo: int, xhi: int, ylo: int, yhi: int, zlo: int, zmid: int, zhi: int)
    requires g.Valid() && zlo <= zmid <= zhi
    ensures |Box(g, x, y, z, xlo, xhi, ylo, yhi, zlo, zhi)|
         == |Box(g, x, y, z, xlo, xhi, ylo, yhi, zlo, zmid)|
          + |Box(g, x, y, z, xlo, xhi, ylo, yhi, zmid, zhi)|
  {
    var a := Box(g, x, y, z, xlo, xhi, ylo, yhi, zlo, zmid);
    var b := Box(g, x, y, z, xlo, xhi, ylo, yhi, zmid, zhi);
    assert Box(g, x, y, z, xlo, xhi, ylo, yhi, zlo, zhi) == a + b;
    assert a !! b;
  }

  /** A single offset's box holds exactly what that offset contributes. */
  lemma UnitBox(g: Generation, x: int, y: int, z: int, dx: int, dy: int, dz: int)
    requires g.Valid()
    ensures |Box(g, x, y, z, x + dx, x + dx + 1, y + dy, y + dy + 1, z + dz, z + dz + 1)|
         == Contribution(g, x, y, z, dx, dy, dz)
  {
    var b := Box(g, x, y, z, x + dx, x + dx + 1, y + dy, y + dy + 1, z + dz, z + dz + 1);
    if Contribution(g, x, y, z, dx, dy, dz) == 1 {
      assert b == {(x + dx, y + dy, z + dz)};
    } else {
      assert b == {};
    }
  }

  lemma {:induction false} RowCard(g: Generation, x: int, y: int, z: int, dz: int, dy: int, n: nat)
    requires g.Valid() && n <= 3
    ensures |Box(g, x, y, z, x - 1, x - 1 + n, y + dy, y + dy + 1, z + dz, z + dz + 1)|
         == RowSum(g, x, y, z, dz, dy, n)
  {
    if n > 0 {
      RowCard(g, x, y, z, dz, dy, n - 1);
      SplitX(g, x, y, z, x - 1, x - 1 + (n - 1), x - 1 + n, y + dy, y + dy + 1, z + dz, z + dz + 1);
      UnitBox(g, x, y, z, n - 2, dy, dz);
    }
  }

  lemma {:induction false} PlaneCard(g: Generation, x: int, y: int, z: int, dz: int, n: nat)
    requires g.Valid() && n <= 3
    ensures |Box(g, x, y, z, x - 1, x + 2, y - 1, y - 1 + n, z + dz, z + dz + 1)|
         == PlaneSum(g, x, y, z, dz, n)
  {
    if n > 0 {
      PlaneCard(g, x, y, z, dz, n - 1);
      SplitY(g, x, y, z, x - 1, x + 2, y - 1, y - 1 + (n - 1), y - 1 + n, z + dz, z + dz + 1);
      RowCard(g, x, y, z, dz, n - 2, 3);
    }
  }

  lemma {:induction false} CubeCard(g: Generation, x: int, y: int, z: int, n: nat)
    requires g.Valid() && n <= 3
    ensures |Box(g, x, y, z, x - 1, x + 2, y - 1, y + 2, z - 1, z - 1 + n)|
         == CubeSum(g, x, y, z, n)
  {
    if n > 0 {
      CubeCard(g, x, y, z, n - 1);
      SplitZ(g, x, y, z, x - 1, x + 2, y - 1, y + 2, z - 1, z - 1 + (n - 1), z - 1 + n);
      PlaneCard(g, x, y, z, n - 2, 3);
    }
  }

  /** The loop-order count is exactly the number of alive neighbours. */
  lemma NeighborCountIsCard(g: Generation, x: int, y: int, z: int)
    requires g.Valid()
    ensures NeighborCount(g, x, y, z) == |AliveNeighbors(g, x, y, z)|
  {
    CubeCard(g, x, y, z, 3);
  }

  /** The three sums written out over their three terms. */
  lemma Unfold(g: Generation, x: int, y: int, z: int, dz: int, dy: int)
    requires g.Valid()
    ensures RowSum(g, x, y, z, dz, dy, 3)
         == Contribution(g, x, y, z, -1, dy, dz) + Contribution(g, x, y, z, 0, dy, dz)
          + Contribution(g, x, y, z, 1, dy, dz)
    ensures PlaneSum(g, x, y, z, dz, 3)
         == RowSum(g, x, y, z, dz, -1, 3) + RowSum(g, x, y, z, dz, 0, 3) + RowSum(g, x, y, z, dz, 1, 3)
    ensures NeighborCount(g, x, y, z)
         == PlaneSum(g, x, y, z, -1, 3) + PlaneSum(g, x, y, z, 0, 3) + PlaneSum(g, x, y, z, 1, 3)
  {
    assert RowSum(g, x, y, z, dz, dy, 1) == Contribution(g, x, y, z, -1, dy, dz);
    assert RowSum(g, x, y, z, dz, dy, 2) == RowSum(g, x, y, z, dz, dy, 1) + Contribution(g, x, y, z, 0, dy, dz);
    assert PlaneSum(g, x, y, z, dz, 1) == RowSum(g, x, y, z, dz, -1, 3);
    assert PlaneSum(g, x, y, z, dz, 2) == PlaneSum(g, x, y, z, dz, 1) + RowSum(g, x, y, z, dz, 0, 3);
    assert CubeSum(g, x, y, z, 1) == PlaneSum(g, x, y, z, -1, 3);
    assert CubeSum(g, x, y, z, 2) == CubeSum(g, x, y, z, 1) + PlaneSum(g, x, y, z, 0, 3);
  }

  /** A row whose cells all lie outside the grid contributes nothing, and a
      row at the grid's low x edge contributes at most two. */
  lemma RowAtEdge(g: Generation, x: int, y: int, z: int, dz: int, dy: int)
    requires g.Valid()
    ensures y + dy < 0 || z + dz < 0 ==> RowSum(g, x, y, z, dz, dy, 3) == 0
    ensures x == 0 ==> RowSum(g, x, y, z, dz, dy, 3) <= 2
  {
    Unfold(g, x, y, z, dz, dy);
  }

  lemma {:induction false} RowSumBound(g: Generation, x: int, y: int, z: int, dz: int, dy: int, n: nat)
    requires g.Valid() && n <= 3
    ensures RowSum(g, x, y, z, dz, dy, n) <= n
    ensures dy == 0 && dz == 0 && n >= 2 ==> RowSum(g, x, y, z, dz, dy, n) <= n - 1
  {
    if n > 0 {
      RowSumBound(g, x, y, z, dz, dy, n - 1);
    }
  }

  lemma {:induction false} PlaneSumBound(g: Generation, x: int, y: int, z: int, dz: int, n: nat)
    requires g.Valid() && n <= 3
    ensures PlaneSum(g, x, y, z, dz, n) <= 3 * n
    ensures dz == 0 && n >= 2 ==> PlaneSum(g, x, y, z, dz, n) <= 3 * n - 1
  {
    if n > 0 {
      PlaneSumBound(g, x, y, z, dz, n - 1);
      RowSumBound(g, x, y, z, dz, n - 2, 3);
    }
  }

  lemma {:induction false} CubeSumBound(g: Generation, x: int, y: int, z: int, n: nat)
    requires g.Valid() && n <= 3
    ensures CubeSum(g, x, y, z, n) <= 9 * n
    ensures n >= 2 ==> CubeSum(g, x, y, z, n) <= 9 * n - 1
  {
    if n > 0 {
      CubeSumBound(g, x, y, z, n - 1);
      PlaneSumBound(g, x, y, z, n - 2, 3);
    }
  }

  /** The corner (0, 0, 0) has at most the 7 neighbours that lie inside the
      grid: nothing is counted across an edge. */
  lemma CornerAtMost7(g: Generation)
    requires g.Valid()
    ensures NeighborCount(g, 0, 0, 0) <= 7
  {
    Unfold(g, 0, 0, 0, 0, 0);
    Unfold(g, 0, 0, 0, -1, 0);
    Unfold(g, 0, 0, 0, 1, 0);
    RowAtEdge(g, 0, 0, 0, -1, -1);
    RowAtEdge(g, 0, 0, 0, -1, 0);
    RowAtEdge(g, 0, 0, 0, -1, 1);
    RowAtEdge(g, 0, 0, 0, 0, -1);
    RowAtEdge(g, 0, 0, 0, 0, 1);
    RowAtEdge(g, 0, 0, 0, 1, -1);
    RowAtEdge(g, 0, 0, 0, 1, 0);
    RowAtEdge(g, 0, 0, 0, 1, 1);
    assert RowSum(g, 0, 0, 0, 0, 0, 3) <= 1;
  }

  /** The count as the sum of its nine rows. */
  lemma UnfoldRows(g: Generation, x: int, y: int, z: int)
    requires g.Valid()
    ensures NeighborCount(g, x, y, z)
         == RowSum(g, x, y, z, -1, -1, 3) + RowSum(g, x, y, z, -1, 0, 3) + RowSum(g, x, y, z, -1, 1, 3)
          + RowSum(g, x, y, z, 0, -1, 3) + RowSum(g, x, y, z, 0, 0, 3) + RowSum(g, x, y, z, 0, 1, 3)
          + RowSum(g, x, y, z, 1, -1, 3) + RowSum(g, x, y, z, 1, 0, 3) + RowSum(g, x, y, z, 1, 1, 3)
  {
    Unfold(g, x, y, z, -1, 0);
    Unfold(g, x, y, z, 0, 0);
    Unfold(g, x, y, z, 1, 0);
  }

  /** Each of the nine rows as the sum of its three offsets. */
  lemma UnfoldAll(g: Generation, x: int, y: int, z: int)
    requires g.Valid()
    ensures forall dz, dy | -1 <= dz <= 1 && -1 <= dy <= 1 ::
      RowSum(g, x, y, z, dz, dy, 3)
        == Contribution(g, x, y, z, -1, dy, dz) + Contribution(g, x, y, z, 0, dy, dz)
         + Contribution(g, x, y, z, 1, dy, dz)
  {
    forall dz, dy | -1 <= dz <= 1 && -1 <= dy <= 1
      ensures RowSum(g, x, y, z, dz, dy, 3)
        == Contribution(g, x, y, z, -1, dy, dz) + Contribution(g, x, y, z, 0, dy, dz)
         + Contribution(g, x, y, z, 1, dy, dz)
    {
      Unfold(g, x, y, z, dz, dy);
    }
  }


  /** The most row (dy, dz) can add: 2 for the centre row, else 3. */
  function RowMax(dz: int, dy: int): nat
  {
    if dz == 0 && dy == 0 then 2 else 3
  }

  /** Every coordinate of row (ny, nz) next to (x, y, z), other than
      (x, y, z) itself, exists and is alive. */
  ghost predicate RowSurrounded(g: Generation, x: int, y: int, z: int, ny: int, nz: int)
    requires g.Valid()
  {
    forall nx | x - 1 <= nx <= x + 1 && (nx, ny, nz) != (x, y, z) :: g.AliveAt(nx, ny, nz)
  }

  /** A row adds at most RowMax, and adds exactly that when it is full. */
  lemma RowFull(g: Generation, x: int, y: int, z: int, dz: int, dy: int)
    requires g.Valid()
    ensures RowSum(g, x, y, z, dz, dy, 3) <= RowMax(dz, dy)
    ensures RowSum(g, x, y, z, dz, dy, 3) == RowMax(dz, dy) <==> RowSurrounded(g, x, y, z, y + dy, z + dz)
  {
    var ny, nz := y + dy, z + dz;
    Unfold(g, x, y, z, dz, dy);
    if RowSum(g, x, y, z, dz, dy, 3) == RowMax(dz, dy) {
      forall nx | x - 1 <= nx <= x + 1 && (nx, ny, nz) != (x, y, z)
        ensures g.AliveAt(nx, ny, nz)
      {
        assert Contribution(g, x, y, z, nx - x, dy, dz) == 1;
      }
    }
    if RowSurrounded(g, x, y, z, ny, nz) {
      assert (x - 1, ny, nz) != (x, y, z) ==> g.AliveAt(x - 1, ny, nz);
      assert (x, ny, nz) != (x, y, z) ==> g.AliveAt(x, ny, nz);
      assert (x + 1, ny, nz) != (x, y, z) ==> g.AliveAt(x + 1, ny, nz);
    }
  }

  /** All 26 coordinates around (x, y, z) exist and are alive. */
  ghost predicate Surrounded(g: Generation, x: int, y: int, z: int)
    requires g.Valid()
  {
    forall nx, ny, nz | x - 1 <= nx <= x + 1 && y - 1 <= ny <= y + 1 && z - 1 <= nz <= z + 1
      && (nx, ny, nz) != (x, y, z) :: g.AliveAt(nx, ny, nz)
  }

  /** The count is 26 exactly when each of the nine rows adds its RowMax. */
  lemma RowsAtMax(g: Generation, x: int, y: int, z: int)
    requires g.Valid()
    ensures forall dz, dy | -1 <= dz <= 1 && -1 <= dy <= 1 ::
      RowSum(g, x, y, z, dz, dy, 3) == RowMax(dz, dy) <==> RowSurrounded(g, x, y, z, y + dy, z + dz)
    ensures NeighborCount(g, x, y, z) == 26 <==>
      forall dz, dy | -1 <= dz <= 1 && -1 <= dy <= 1 :: RowSum(g, x, y, z, dz, dy, 3) == RowMax(dz, dy)
  {
    UnfoldRows(g, x, y, z);
    forall dz, dy | -1 <= dz <= 1 && -1 <= dy <= 1
      ensures RowSum(g, x, y, z, dz, dy, 3) <= RowMax(dz, dy)
      ensures RowSum(g, x, y, z, dz, dy, 3) == RowMax(dz, dy) <==> RowSurrounded(g, x, y, z, y + dy, z + dz)
    {
      RowFull(g, x, y, z, dz, dy);
    }
  }

  /** A coordinate has 26 alive neighbours exactly when all 26 coordinates
      around it exist and are alive. */
  lemma FullNeighborhood(g: Generation, x: int, y: int, z: int)
    requires g.Valid()
    ensures NeighborCount(g, x, y, z) == 26 <==> Surrounded(g, x, y, z)
  {
    RowsAtMax(g, x, y, z);
    if NeighborCount(g, x, y, z) == 26 {
      forall nx, ny, nz | x - 1 <= nx <= x + 1 && y - 1 <= ny <= y + 1 && z - 1 <= nz <= z + 1
        && (nx, ny, nz) != (x, y, z)
        ensures g.AliveAt(nx, ny, nz)
      {
        assert RowSum(g, x, y, z, nz - z, ny - y, 3) == RowMax(nz - z, ny - y);
      }
    }
    if Surrounded(g, x, y, z) {
      forall dz, dy | -1 <= dz <= 1 && -1 <= dy <= 1
        ensures RowSum(g, x, y, z, dz, dy, 3) == RowMax(dz, dy)
      {
        assert RowSurrounded(g, x, y, z, y + dy, z + dz);
      }
    }
  }

  /** The corner (0, 0, 0) has 7 alive neighbours exactly when the 7
      coordinates of the unit cube around it exist and are alive. */
  lemma FullCorner(g: Generation)
    requires g.Valid()
    ensures NeighborCount(g, 0, 0, 0) == 7
        <==> forall nx, ny, nz | 0 <= nx <= 1 && 0 <= ny <= 1 && 0 <= nz <= 1
               && (nx, ny, nz) != (0, 0, 0) :: g.AliveAt(nx, ny, nz)
  {
    UnfoldRows(g, 0, 0, 0);
    UnfoldAll(g, 0, 0, 0);
    if NeighborCount(g, 0, 0, 0) == 7 {
      forall nx, ny, nz | 0 <= nx <= 1 && 0 <= ny <= 1 && 0 <= nz <= 1 && (nx, ny, nz) != (0, 0, 0)
        ensures g.AliveAt(nx, ny, nz)
      {
        assert Contribution(g, 0, 0, 0, nx, ny, nz) == 1;
      }
    }
  }

  /** The count reads nothing but the 26 coordinates around (x, y, z): two
      generations that agree there give the same count. */
  lemma NeighborCountLocal(g1: Generation, g2: Generation, x: int, y: int, z: int)
    requires g1.Valid() && g2.Valid()
    requires forall nx, ny, nz | x - 1 <= nx <= x + 1 && y - 1 <= ny <= y + 1 && z - 1 <= nz <= z + 1
               && (nx, ny, nz) != (x, y, z) :: g1.AliveAt(nx, ny, nz) == g2.AliveAt(nx, ny, nz)
    ensures NeighborCount(g1, x, y, z) == NeighborCount(g2, x, y, z)
  {
    NeighborCountIsCard(g1, x, y, z);
    NeighborCountIsCard(g2, x, y, z);
    assert AliveNeighbors(g1, x, y, z) == AliveNeighbors(g2, x, y, z);
  }

  /** The cell itself is never counted: overwriting it leaves its count as
      it was. */
  lemma NeighborCountIgnoresSelf(g: Generation, x: int, y: int, z: int, c: Cell)
    requires g.Valid() && InBounds(g.width, g.height, g.depth, x, y, z)
    ensures 0 <= Index(g.width, g.height, x, y, z) < |g.cells|
    ensures NeighborCount(g.(cells := g.cells[Index(g.width, g.height, x, y, z) := c]), x, y, z)
         == NeighborCount(g, x, y, z)
  {
    IndexInRange(g.width, g.height, g.depth, x, y, z);
    var i := Index(g.width, g.height, x, y, z);
    var g' := g.(cells := g.cells[i := c]);
    assert g'.Valid();
    forall nx, ny, nz | x - 1 <= nx <= x + 1 && y - 1 <= ny <= y + 1 && z - 1 <= nz <= z + 1
      && (nx, ny, nz) != (x, y, z)
      ensures g'.AliveAt(nx, ny, nz) == g.AliveAt(nx, ny, nz)
    {
      OtherCellUnchanged(g, i, c, x, y, z, nx, ny, nz);
    }
    NeighborCountLocal(g', g, x, y, z);
  }

  lemma OtherCellUnchanged(g: Generation, i: int, c: Cell, x: int, y: int, z: int, nx: int, ny: int, nz: int)
    requires g.Valid() && InBounds(g.width, g.height, g.depth, x, y, z)
    requires i == Index(g.width, g.height, x, y, z) && 0 <= i < |g.cells|
    requires (nx, ny, nz) != (x, y, z)
    ensures g.(cells := g.cells[i := c]).AliveAt(nx, ny, nz) == g.AliveAt(nx, ny, nz)
  {
    if InBounds(g.width, g.height, g.depth, nx, ny, nz) {
      IndexInjective(g.width, g.height, g.depth, x, y, z, nx, ny, nz);
      IndexInRange(g.width, g.height, g.depth, nx, ny, nz);
    }
  }
}
