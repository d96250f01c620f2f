/** Whole-grid queries: the number of alive cells and the enumeration of
    every cell together with its coordinate. */
module Census {
  import opened Layout
  import opened GridState

  /** The number of alive cells in the storage (a filter-and-count). */
  function CountAlive(cells: seq<Cell>): (n: nat)
    ensures n <= |cells|
  {
    if cells == [] then 0
    else CountAlive(cells[..|cells| - 1]) + (if cells[|cells| - 1] == Alive then 1 else 0)
  }

  /** The storage indices that hold an alive cell. */
  ghost function AliveIndices(cells: seq<Cell>): set<int>
  {
    set i | 0 <= i < |cells| && cells[i] == Alive
  }

  /** The in-bounds coordinates whose cell is alive. */
  ghost function AliveCoords(g: Generation): set<(int, int, int)>
    requires g.Valid()
  {
    set x: int, y: int, z: int
      | 0 <= x < g.width && 0 <= y < g.height && 0 <= z < g.depth && g.AliveAt(x, y, z)
      :: (x, y, z)
  }

  /** The count is the number of indices holding an alive cell, so it never
      exceeds the storage size, and it is zero exactly when every cell is
      empty. */
  lemma {:induction false} CountAliveIsCard(cells: seq<Cell>)
    ensures CountAlive(cells) == |AliveIndices(cells)|
    ensures CountAlive(cells) <= |cells|
    ensures CountAlive(cells) == 0 <==> AllEmpty(cells)
  {
    if cells != [] {
      var prefix := cells[..|cells| - 1];
      CountAliveIsCard(prefix);
      var last := |cells| - 1;
      if cells[last] == Alive {
        assert AliveIndices(cells) == AliveIndices(prefix) + {last};
        assert !AllEmpty(cells);
      } else {
        assert AliveIndices(cells) == AliveIndices(prefix);
        assert AllEmpty(cells) <==> AllEmpty(prefix) by {
          if AllEmpty(prefix) {
            forall i | 0 <= i < |cells| ensures cells[i] == Empty {
              if i < last { assert cells[i] == prefix[i]; }
            }
          }
          if AllEmpty(cells) {
            forall i | 0 <= i < |prefix| ensures prefix[i] == Empty {
              assert prefix[i] == cells[i];
            }
          }
        }
      }
    }
  }

  /** The storage indices of a set of in-bounds coordinates. */
  ghost function IndexImage(g: Generation, s: set<(int, int, int)>): set<int>
  {
    set p | p in s :: Index(g.width, g.height, p.0, p.1, p.2)
  }

  lemma {:induction false} IndexImageCard(g: Generation, s: set<(int, int, int)>)
    requires forall p | p in s :: InBounds(g.width, g.height, g.depth, p.0, p.1, p.2)
    ensures |IndexImage(g, s)| == |s|
    decreases |s|
  {
    if s != {} {
      var p :| p in s;
      var rest := s - {p};
      IndexImageCard(g, rest);
      var i := Index(g.width, g.height, p.0, p.1, p.2);
      assert IndexImage(g, s) == IndexImage(g, rest) + {i};
      if i in IndexImage(g, rest) {
        var q :| q in rest && Index(g.width, g.height, q.0, q.1, q.2) == i;
        IndexInjective(g.width, g.height, g.depth, p.0, p.1, p.2, q.0, q.1, q.2);
        assert false;
      }
    }
  }

  /** Counting alive coordinates and counting alive storage slots agree,
      because the layout is a bijection between the two. */
  lemma AliveCoordsCard(g: Generation)
    requires g.Valid()
    ensures |AliveCoords(g)| == CountAlive(g.cells)
  {
    var coords := AliveCoords(g);
    IndexImageCard(g, coords);
    CountAliveIsCard(g.cells);
    forall i | i in AliveIndices(g.cells) ensures i in IndexImage(g, coords) {
      IndexDecode(g.width, g.height, g.depth, i);
      var p := Decode(g.width, g.height, i);
      assert p in coords;
    }
    forall i | i in IndexImage(g, coords) ensures i in AliveIndices(g.cells) {
      var p :| p in coords && Index(g.width, g.height, p.0, p.1, p.2) == i;
      IndexInRange(g.width, g.height, g.depth, p.0, p.1, p.2);
    }
    assert IndexImage(g, coords) == AliveIndices(g.cells);
  }

  /** The row (y, z), x running from 0 to width - 1. */
  function Row(g: Generation, y: nat, z: nat): seq<(nat, nat, nat, Cell)>
    requires g.Valid() && y < g.height && z < g.depth
  {
    seq(g.width, x requires 0 <= x < g.width => (x, y, z, g.CellAt(x, y, z)))
  }

  /** The first n rows of plane z, one after another. */
  function Rows(g: Generation, z: nat, n: nat): seq<(nat, nat, nat, Cell)>
    requires g.Valid() && z < g.depth && n <= g.height
  {
    if n == 0 then [] else Rows(g, z, n - 1) + Row(g, n - 1, z)
  }

  /** The first n planes, one after another. */
  function Planes(g: Generation, n: nat): seq<(nat, nat, nat, Cell)>
    requires g.Valid() && n <= g.depth
  {
    if n == 0 then [] else Planes(g, n - 1) + Rows(g, n - 1, g.height)
  }

  /** Every cell with its coordinate: z outermost, then y, then x. There is
      one tuple per stored cell. */
  function Enumerate(g: Generation): (tuples: seq<(nat, nat, nat, Cell)>)
    requires g.Valid()
    ensures |tuples| == |g.cells|
  {
    PlanesLength(g, g.depth);
    assert g.depth * (g.width * g.height) == g.width * g.height * g.depth;
    Planes(g, g.depth)
  }

  lemma {:induction false} RowsLength(g: Generation, z: nat, n: nat)
    requires g.Valid() && z < g.depth && n <= g.height
    ensures |Rows(g, z, n)| == n * g.width
  {
    if n > 0 {
      RowsLength(g, z, n - 1);
      assert n * g.width == (n - 1) * g.width + g.width;
    }
  }

  /** The tuple of (x, y, z) follows the first y rows of plane z. */
  lemma {:induction false} RowsAt(g: Generation, z: nat, n: nat, x: nat, y: nat)
    requires g.Valid() && z < g.depth && n <= g.height && x < g.width && y < n
    ensures |Rows(g, z, y)| + x < |Rows(g, z, n)|
    ensures Rows(g, z, n)[|Rows(g, z, y)| + x] == (x, y, z, g.CellAt(x, y, z))
  {
    var prev := Rows(g, z, n - 1);
    var row := Row(g, n - 1, z);
    assert Rows(g, z, n) == prev + row;
    if y < n - 1 {
      RowsAt(g, z, n - 1, x, y);
      ConcatAt(prev, row, |Rows(g, z, y)| + x);
    } else {
      ConcatAt(prev, row, |prev| + x);
    }
  }

  lemma {:induction false} PlanesLength(g: Generation, n: nat)
    requires g.Valid() && n <= g.depth
    ensures |Planes(g, n)| == n * (g.width * g.height)
  {
    if n > 0 {
      PlanesLength(g, n - 1);
      RowsLength(g, n - 1, g.height);
      assert n * (g.width * g.height) == (n - 1) * (g.width * g.height) + g.width * g.height;
    }
  }

  /** The tuple of (x, y, z) follows the first z planes and, within plane
      z, the first y rows. */
  lemma {:induction false} PlanesAt(g: Generation, n: nat, x: nat, y: nat, z: nat)
    requires g.Valid() && n <= g.depth && x < g.width && y < g.height && z < n
    ensures |Planes(g, z)| + |Rows(g, z, y)| + x < |Planes(g, n)|
    ensures Planes(g, n)[|Planes(g, z)| + |Rows(g, z, y)| + x] == (x, y, z, g.CellAt(x, y, z))
  {
    var prev := Planes(g, n - 1);
    var last := Rows(g, n - 1, g.height);
    assert Planes(g, n) == prev + last;
    if z < n - 1 {
      PlanesAt(g, n - 1, x, y, z);
      ConcatAt(prev, last, |Planes(g, z)| + |Rows(g, z, y)| + x);
    } else {
      RowsAt(g, z, g.height, x, y);
      ConcatAt(prev, last, |prev| + |Rows(g, z, y)| + x);
    }
  }

  /** The tuple of an in-bounds coordinate sits at the coordinate's index. */
  lemma EnumerateAt(g: Generation, x: nat, y: nat, z: nat)
    requires g.Valid() && InBounds(g.width, g.height, g.depth, x, y, z)
    ensures 0 <= Index(g.width, g.height, x, y, z) < |Enumerate(g)|
    ensures Enumerate(g)[Index(g.width, g.height, x, y, z)] == (x, y, z, g.CellAt(x, y, z))
  {
    PlanesAt(g, g.depth, x, y, z);
    PlanesLength(g, z);
    RowsLength(g, z, y);
    IndexSplit(g.width, g.height, x, y, z);
  }

  /** The k-th tuple is the coordinate stored at index k, with that cell. */
  lemma EnumerateIndex(g: Generation, k: int)
    requires g.Valid() && 0 <= k < |g.cells|
    ensures k < |Enumerate(g)|
    ensures InBounds(g.width, g.height, g.depth, Enumerate(g)[k].0, Enumerate(g)[k].1, Enumerate(g)[k].2)
    ensures Index(g.width, g.height, Enumerate(g)[k].0, Enumerate(g)[k].1, Enumerate(g)[k].2) == k
    ensures Enumerate(g)[k].3 == g.cells[k]
  {
    IndexDecode(g.width, g.height, g.depth, k);
    var p := Decode(g.width, g.height, k);
    EnumerateAt(g, p.0, p.1, p.2);
  }

  lemma ConcatAt<T>(a: seq<T>, b: seq<T>, i: int)
    requires 0 <= i < |a| + |b|
    ensures (a + b)[i] == if i < |a| then a[i] else b[i - |a|]
  {
  }

  /** The enumeration has one tuple per cell; its k-th tuple is the
      coordinate stored at index k together with that cell, and every
      in-bounds coordinate appears at its own index. */
  lemma EnumerateLayout(g: Generation)
    requires g.Valid()
    ensures |Enumerate(g)| == |g.cells|
    ensures forall k | 0 <= k < |g.cells| ::
      InBounds(g.width, g.height, g.depth, Enumerate(g)[k].0, Enumerate(g)[k].1, Enumerate(g)[k].2) &&
      Index(g.width, g.height, Enumerate(g)[k].0, Enumerate(g)[k].1, Enumerate(g)[k].2) == k &&
      Enumerate(g)[k].3 == g.cells[k]
    ensures forall x: nat, y: nat, z: nat | InBounds(g.width, g.height, g.depth, x, y, z) ::
      0 <= Index(g.width, g.height, x, y, z) < |g.cells| &&
      Enumerate(g)[Index(g.width, g.height, x, y, z)]
        == (x, y, z, g.cells[Index(g.width, g.height, x, y, z)])
  {
    forall x: nat, y: nat, z: nat | InBounds(g.width, g.height, g.depth, x, y, z)
      ensures 0 <= Index(g.width, g.height, x, y, z) < |g.cells|
      ensures Enumerate(g)[Index(g.width, g.height, x, y, z)]
                == (x, y, z, g.cells[Index(g.width, g.height, x, y, z)])
    {
      EnumerateAt(g, x, y, z);
    }
    forall k | 0 <= k < |g.cells|
      ensures InBounds(g.width, g.height, g.depth, Enumerate(g)[k].0, Enumerate(g)[k].1, Enumerate(g)[k].2)
      ensures Index(g.width, g.height, Enumerate(g)[k].0, Enumerate(g)[k].1, Enumerate(g)[k].2) == k
      ensures Enumerate(g)[k].3 == g.cells[k]
    {
      EnumerateIndex(g, k);
    }
  }
}
