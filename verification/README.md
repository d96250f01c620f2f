# Grid3D: a 3D cellular automaton, modelled in Dafny

This project models `Grid3D`, a dense, bounded three-dimensional cellular
automaton. It is Conway's Game of Life generalised to 26-neighbour
connectivity.

- **Cells.** A cell is `Empty` or `Alive`.
- **Storage.** The grid stores `width * height * depth` cells in one flat
  vector. Coordinate `(x, y, z)` lives at index `x + y*width + z*width*height`,
  so x varies fastest.
- **Access.** `get` reports an absent value for an out-of-range coordinate.
  `set` reports `false` for one and changes nothing.
- **Neighbours.** `count_alive_neighbors` counts the alive cells among the 26
  surrounding coordinates that lie inside the grid. There is no wrap-around.
- **Generations.** `update` computes the next generation into a copy from the
  old generation alone, then swaps the copy in. An alive cell survives with 5
  to 7 alive neighbours. An empty cell becomes alive with 6 or 7.
- **Queries.** `count_alive`, `dimensions` and `iter_cells` read the grid. The
  enumeration runs z outermost, then y, then x.

Files, one module each:

- `layout.dfy` (`Layout`): the linear index and its inverse. The index is in
  range, injective and onto the storage.
- `state.dfy` (`GridState`): `Cell`, `Option`, and `Generation`, a value
  holding the dimensions and the cells.
- `neighbors.dfy` (`Neighbors`): the neighbour count is defined in two ways.
  One is the sum `count_alive_neighbors`'s triple loop accumulates, in that
  loop's order.
  The other is the size of the set of alive in-bounds neighbour coordinates.
  The module proves the two equal, and proves bounds and locality facts.
- `census.dfy` (`Census`): the alive count and the enumeration of cells.
- `life.dfy` (`Life`): the survival/birth rule, the generation step `Step`,
  and its consequences.
- `grid.dfy` (`Grid`): the class `Grid3D`. Its dimensions are constants and
  its cells are a `seq<Cell>` field. `Set` writes a cell in place.
  `CountAliveNeighbors` and `Update` are the triple loops of
  `count_alive_neighbors` and `update`, each proved
  against the specification functions above. The body of the innermost
  neighbour loop (skip the cell itself, bounds check, `get`) is the helper
  method `NeighborAlive`, which returns what one offset adds.

Zero dimensions are accepted, as in the code: the grid is then empty and no
coordinate is addressable.

## Model

| member | source | states |
|---|---|---|
| `Layout.Index` | src/main.rs:33-35 | `get_index`: the slot of `(x, y, z)` is `x + y*width + z*width*height`, x fastest. Its properties are the next four rows |
| `Layout.IndexInRange` | src/main.rs:33-35 | an in-range coordinate's index lies in `[0, width*height*depth)` |
| `Layout.IndexInjective` | src/main.rs:33-35 | two in-range coordinates share an index iff they are the same coordinate |
| `Layout.DecodeIndex` | src/main.rs:33-35 | the x-fastest layout can be inverted: decoding an in-range coordinate's index gives the coordinate back |
| `Layout.IndexDecode` | src/main.rs:33-35 | every storage index below `width*height*depth` is the index of exactly the in-range coordinate it decodes to |
| `Grid.Grid3D.constructor` | src/main.rs:21-29 | a new grid has the given dimensions and exactly `w*h*d` cells, all `Empty`, and `Dimensions()` returns `(w, h, d)` |
| `Grid.Grid3D.Get` | src/main.rs:38-44 | the result is absent exactly when `x >= width`, `y >= height` or `z >= depth`; otherwise it is the cell stored at the coordinate's index |
| `Grid.Grid3D.Set` | src/main.rs:47-54 | reports success iff the coordinate is in range. On failure the cell vector is unchanged. On success a following `Get` returns the written cell, and `Get` at every other coordinate returns what it did before |
| `Grid.Grid3D.CountAliveNeighbors` | src/main.rs:57-82 | the triple loop over `dz`, `dy`, `dx` in `-1..=1` that skips `(0,0,0)` and out-of-range coordinates returns exactly `NeighborCount` of the current cells |
| `Neighbors.Contribution` | src/main.rs:62-77 | what one offset adds: at most 1, nothing for `(0,0,0)`, and 1 only for a coordinate inside the grid |
| `Grid.Grid3D.NeighborAlive` | src/main.rs:62-77 | one pass of the innermost loop returns exactly the offset's `Contribution` |
| `Neighbors.NeighborCountIsCard` | src/main.rs:57-82 | the loop-order count equals the number of alive in-bounds coordinates that differ from `(x,y,z)` by at most one on each axis, excluding `(x,y,z)` itself |
| `Neighbors.NeighborCount` | src/main.rs:57-82 | the neighbour count as the loop accumulates it: offsets dz outermost, then dy, then dx, each -1, 0, 1. It never exceeds 26 |
| `Neighbors.CornerAtMost7` | src/main.rs:67-77 | at the corner `(0,0,0)` the count never exceeds 7: nothing is counted across an edge |
| `Neighbors.RowFull` | src/main.rs:61-77 | one row of three offsets adds at most 2 (the cell's own row) or 3, and adds exactly that much iff every coordinate of the row other than the cell itself exists and is alive |
| `Neighbors.FullNeighborhood` | src/main.rs:60-77 | the count is 26 iff all 26 surrounding coordinates exist and are alive |
| `Neighbors.FullCorner` | src/main.rs:60-77 | the count at `(0,0,0)` is 7 iff the 7 other coordinates of the unit cube at the origin exist and are alive |
| `Neighbors.NeighborCountLocal` | src/main.rs:67-77 | the count depends only on the 26 surrounding coordinates: two grids that agree there give the same count |
| `Neighbors.NeighborCountIgnoresSelf` | src/main.rs:63-65 | the cell itself is never counted: overwriting it leaves its own count unchanged |
| `Grid.Grid3D.Update` | src/main.rs:85-120 | the new cells are exactly `Step` of the old generation; the dimensions and the cell count are preserved |
| `Life.Rule` | src/main.rs:99-114 | the per-cell rule: a cell is alive next only with 5 to 7 neighbours; 6 or 7 neighbours always give an alive cell; an empty cell with fewer than 6 stays empty |
| `Life.Step` | src/main.rs:85-120 | the next generation keeps the dimensions and the number of cells |
| `Life.StepAt` | src/main.rs:91-114 | each new cell is `Alive` iff the old cell was `Alive` with an old count in `[5,7]`, or was `Empty` with an old count in `[6,7]` |
| `Life.NeighborCountAtMostAlive` | src/main.rs:57-82 | a cell's neighbour count, plus one if the cell itself is alive, is at most the grid's alive count |
| `Life.SparseDies` | src/main.rs:99-114 | a grid with at most five alive cells is all `Empty` after one step |
| `Life.EmptyStaysEmpty` | src/main.rs:85-120 | an all-`Empty` grid stays all-`Empty` after any number of steps |
| `Life.LoneCentreDies` | src/main.rs:85-120 | in the 3x3x3 grid whose only alive cell is `(1,1,1)`, the centre has 0 neighbours, and after one step the alive count is 0 |
| `Census.CountAlive` | src/main.rs:123-125 | the filter-and-count over the cells; never more than the number of cells |
| `Census.CountAliveIsCard` | src/main.rs:123-125 | the alive count equals the number of indices holding `Alive`; it is at most the number of cells, and it is 0 iff every cell is `Empty` |
| `Census.AliveCoordsCard` | src/main.rs:123-125 | the alive count equals the number of in-bounds coordinates whose cell is alive |
| `Grid.Grid3D.CountAlive` | src/main.rs:123-125 | the result is the number of indices holding `Alive`, at most `width*height*depth` |
| `Grid.Grid3D.Dimensions` | src/main.rs:128-130 | the product of the returned dimensions is the number of stored cells |
| `Census.Enumerate` | src/main.rs:133-141 | the nested `flat_map` over z, y, x: one tuple per stored cell |
| `Census.EnumerateLayout` | src/main.rs:133-141 | the enumeration has exactly `w*h*d` tuples. The k-th tuple is the in-range coordinate stored at index k, with cell k. Every in-range coordinate appears at its own index |
| `Grid.Grid3D.IterCells` | src/main.rs:133-141 | the enumeration has one tuple per stored cell, and tuple k is the coordinate whose index is k, with that cell |

## Left out

- `main`, the frame loop (src/main.rs:153-321): keyboard and mouse input, pause
  and rotation flags, the update cadence, the camera, drawing and console
  output are all I/O and presentation.
- `rotate_point` (src/main.rs:324-338) and the colour and offset computations:
  `f32` trigonometry and floating-point arithmetic.
- `window_conf` (src/main.rs:144-151): window-library configuration.
- Machine integers: coordinates and dimensions are unbounded, so the
  `usize` product `width * height * depth` cannot overflow in the model.
- Grid.Grid3D.CountAliveNeighbors: does not model the `as i32` casts of
  src/main.rs:67-69. The model adds the offsets to unbounded integers. The two
  agree when every coordinate and dimension is below 2^31 - 1. Beyond that
  `count_alive_neighbors`'s `as i32` cast truncates, so it counts the neighbours of another coordinate
  (on a 3x3x3 grid, x = 2^32 + 1 is read as x = 1), or its `+ dx` overflows,
  which panics in a debug build.
- Laziness of `iter_cells`: it is modelled as a sequence of tuples, not as an
  iterator. Restarting the enumeration is simply evaluating it again.
- The `unwrap` calls (src/main.rs:92, 137) only ever see in-range
  coordinates. `Update` keeps the `get` call and takes its value, and the model
  proves it present. `Census.Enumerate` reads the cell directly, so it has no
  panic path.
