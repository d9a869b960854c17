/** The octree texture's indirection pool: a pool of 2x2x2 indirection grids addressed by a
    three-byte pool coordinate, a cursor handing out free pool coordinates in order, and the
    descent `add_data` makes from the root grid to the cell that receives a voxel. */
module Octrees {
  import opened Models

  /** A `[u8; 3]` triple: a pool coordinate, a grid coordinate or a cell's payload. */
  datatype U8x3 = U8x3(x: u8, y: u8, z: u8)

  const Zero3: U8x3 := U8x3(0, 0, 0)

  datatype GridCellType = Empty | Index | Data

  /** A cell holds data or the pool coordinate of a child grid, as its type says. */
  datatype GridCell = GridCell(cellType: GridCellType, data: U8x3)

  /** `GridCell::default()`. */
  const DefaultCell: GridCell := GridCell(Empty, Zero3)

  /** The eight cells of a grid. */
  type Cells = s: seq<GridCell> | |s| == 8 witness [DefaultCell, DefaultCell, DefaultCell, DefaultCell, DefaultCell, DefaultCell, DefaultCell, DefaultCell]

  datatype IndirectionGrid = IndirectionGrid(depth: u8, gridCoord: U8x3, poolCoord: U8x3, cells: Cells)

  /** `IndirectionGrid::default()`. */
  function DefaultGrid(): (g: IndirectionGrid)
    ensures g.depth == 0 && g.gridCoord == Zero3 && g.poolCoord == Zero3
    ensures forall i :: 0 <= i < 8 ==> g.cells[i] == GridCell(Empty, Zero3)
  {
    IndirectionGrid(0, Zero3, Zero3, [DefaultCell, DefaultCell, DefaultCell, DefaultCell, DefaultCell, DefaultCell, DefaultCell, DefaultCell])
  }

  /** `IndirectionGrid::new(depth, grid_coord, pool_coord)`: the given placement, default cells. */
  function NewGrid(depth: u8, gridCoord: U8x3, poolCoord: U8x3): (g: IndirectionGrid)
    ensures g.depth == depth && g.gridCoord == gridCoord && g.poolCoord == poolCoord
    ensures g.cells == DefaultGrid().cells
  {
    DefaultGrid().(depth := depth, gridCoord := gridCoord, poolCoord := poolCoord)
  }

  /** `2^n` */
  function Pow2(n: nat): (r: nat)
    ensures r >= 1
  {
    if n == 0 then 1 else 2 * Pow2(n - 1)
  }

  /** `2^n` doubles `2^(n - 1)`, and for at most 7 levels it fits a `u8`. */
  lemma Pow2Facts(n: nat)
    ensures n >= 1 ==> Pow2(n) == 2 * Pow2(n - 1)
    ensures n <= 7 ==> Pow2(n) <= 128
  {
    if n <= 7 {
      Pow2Monotone(n, 7);
    }
  }

  lemma {:induction false} Pow2Monotone(m: nat, n: nat)
    requires m <= n
    ensures Pow2(m) <= Pow2(n)
    decreases n
  {
    if m < n {
      Pow2Monotone(m, n - 1);
    }
  }

  /** A pool coordinate whose flattening `x + 256y + 65536z` stays within `u16`: in `u16`
      arithmetic `z * 256 * 256` overflows for every `z >= 1`. */
  predicate Flattens(o: U8x3)
  {
    o.z == 0
  }

  /** The pool slot of a pool coordinate. */
  function PoolIndex(o: U8x3): (r: nat)
    requires Flattens(o)
    ensures r < 0x1_0000
  {
    o.x as nat + o.y as nat * 256 + o.z as nat * 256 * 256
  }

  /** The flattening can be undone: a slot names exactly one pool coordinate. */
  lemma PoolIndexDecodes(o: U8x3)
    requires Flattens(o)
    ensures PoolIndex(o) % 256 == o.x as nat && PoolIndex(o) / 256 == o.y as nat
  {
  }

  lemma PoolIndexInjective(a: U8x3, b: U8x3)
    requires Flattens(a) && Flattens(b) && PoolIndex(a) == PoolIndex(b)
    ensures a == b
  {
    PoolIndexDecodes(a);
    PoolIndexDecodes(b);
  }

  /** The cell of a grid that grid position `(gx, gy, gz)` falls in. */
  function CellIndex(gx: int, gy: int, gz: int): int
  {
    gx + gy * 2 + gz * 2 * 2
  }

  /** The eight cell positions of a grid and the cell indices `0..8` correspond one to one. */
  lemma CellIndexDecodes(gx: int, gy: int, gz: int)
    requires 0 <= gx < 2 && 0 <= gy < 2 && 0 <= gz < 2
    ensures 0 <= CellIndex(gx, gy, gz) < 8
    ensures CellIndex(gx, gy, gz) % 2 == gx && (CellIndex(gx, gy, gz) / 2) % 2 == gy && CellIndex(gx, gy, gz) / 4 == gz
  {
  }

  /** The pool-coordinate cursor stays inside the pool's extent in `x` and `y`; `z` reaches
      its maximum once every coordinate has been handed out. */
  predicate CursorInRange(c: U8x3, m: U8x3)
  {
    c.x < m.x && c.y < m.y && c.z <= m.z
  }

  /** `c` comes strictly before `d`, `z` most significant. */
  predicate Before(c: U8x3, d: U8x3)
  {
    c.z < d.z || (c.z == d.z && (c.y < d.y || (c.y == d.y && c.x < d.x)))
  }

  /** The cursor step of `allocate_node`: `x` counts up, wrapping into `y`, which wraps into
      `z`. */
  function Advance(c: U8x3, m: U8x3): U8x3
    requires CursorInRange(c, m) && c.z < m.z
  {
    if c.x < m.x - 1 then c.(x := c.x + 1)
    else if c.y < m.y - 1 then c.(x := 0, y := c.y + 1)
    else U8x3(0, 0, c.z + 1)
  }

  /** One step moves the cursor to the very next coordinate in range: it stays in range,
      moves forward, and skips nothing. So no pool coordinate is handed out twice and none
      is passed over. */
  lemma AdvanceIsSuccessor(c: U8x3, m: U8x3, d: U8x3)
    requires CursorInRange(c, m) && c.z < m.z
    ensures CursorInRange(Advance(c, m), m)
    ensures Before(c, Advance(c, m))
    ensures CursorInRange(d, m) && Before(c, d) ==> !Before(d, Advance(c, m))
  {
  }

  /** `Before` is an order: coordinates handed out by successive allocations are distinct. */
  lemma BeforeTransitive(a: U8x3, b: U8x3, c: U8x3)
    requires Before(a, b) && Before(b, c)
    ensures Before(a, c) && a != c
  {
  }

  /** The cell size of a grid at `gridDepth` in a tree of `depthMax` levels. */
  function CellSize(depthMax: u8, gridDepth: u8): nat
    requires gridDepth <= depthMax
  {
    Pow2((depthMax - gridDepth) as nat) / 2
  }

  /** Which half of the grid a position falls in along one axis: `v / cs`. */
  function Coarse(v: u8, cs: nat): (g: nat)
    requires cs > 0
    ensures g * cs <= v as nat < (g + 1) * cs
  {
    v as nat / cs
  }

  /** The position relative to the cell it falls in: `v - (v / cs) * cs`. */
  function Fine(v: u8, cs: nat): u8
    requires cs > 0
  {
    (v as nat - Coarse(v, cs) * cs) as u8
  }

  /** One level of the descent at grid `g` is free of panics: the grid is not deeper than
      the tree, the cell size `2^(depth_max - depth) / 2` is a nonzero `u8`, and the cell
      index is below 8. */
  predicate StepDefined(g: IndirectionGrid, depthMax: u8, x: u8, y: u8, z: u8)
  {
    g.depth <= depthMax && depthMax - g.depth < 8
    && CellSize(depthMax, g.depth) > 0
    && var cs := CellSize(depthMax, g.depth);
    CellIndex(Coarse(x, cs), Coarse(y, cs), Coarse(z, cs)) < 8
  }

  /** The cell of grid `g` the position falls in. */
  function CellOf(g: IndirectionGrid, depthMax: u8, x: u8, y: u8, z: u8): (ci: nat)
    requires StepDefined(g, depthMax, x, y, z)
    ensures ci < 8
  {
    var cs := CellSize(depthMax, g.depth);
    CellIndex(Coarse(x, cs), Coarse(y, cs), Coarse(z, cs))
  }

  /** How the descent of `add_data` ends. `Diverges` stands for the source's loop that
      `continue`s forever on an empty cell away from the origin. */
  datatype AddOutcome = Stored(slot: nat, cell: nat) | Exhausted | Diverges

  /** The descent of `add_data` from pool slot `idx` at `depth` is free of panics: every
      level is, the slot exists, and every child pool coordinate flattens. */
  predicate WalkDefined(pool: seq<IndirectionGrid>, depthMax: u8, idx: nat, depth: nat, x: u8, y: u8, z: u8)
    decreases depthMax as int - depth
  {
    depth >= depthMax as nat ||
    (idx < |pool| && StepDefined(pool[idx], depthMax, x, y, z)
     && var cell := pool[idx].cells[CellOf(pool[idx], depthMax, x, y, z)];
     var cs := CellSize(depthMax, pool[idx].depth);
     (cell.cellType.Index? ==>
        Flattens(cell.data)
        && WalkDefined(pool, depthMax, PoolIndex(cell.data), depth + 1, Fine(x, cs), Fine(y, cs), Fine(z, cs))))
  }

  /** Where the descent of `add_data` ends: an index cell sends it to the child grid with
      the position taken relative to the cell; a data cell, or an empty cell at the origin,
      receives the voxel. */
  function Walk(pool: seq<IndirectionGrid>, depthMax: u8, idx: nat, depth: nat, x: u8, y: u8, z: u8): AddOutcome
    requires WalkDefined(pool, depthMax, idx, depth, x, y, z)
    decreases depthMax as int - depth
  {
    if depth >= depthMax as nat then Exhausted
    else
      var ci := CellOf(pool[idx], depthMax, x, y, z);
      var cell := pool[idx].cells[ci];
      var cs := CellSize(depthMax, pool[idx].depth);
      match cell.cellType
      case Empty => if x == 0 && y == 0 && z == 0 then Stored(idx, ci) else Diverges
      case Data => Stored(idx, ci)
      case Index => Walk(pool, depthMax, PoolIndex(cell.data), depth + 1, Fine(x, cs), Fine(y, cs), Fine(z, cs))
  }

  /** The pool after the descent: the receiving cell becomes a data cell holding `data`. */
  function StoreCell(pool: seq<IndirectionGrid>, o: AddOutcome, data: U8x3): seq<IndirectionGrid>
    requires o.Stored? ==> o.slot < |pool| && o.cell < 8
  {
    if o.Stored? then pool[o.slot := pool[o.slot].(cells := pool[o.slot].cells[o.cell := GridCell(Data, data)])]
    else pool
  }

  /** The descent lands in an existing slot on a cell that is not an index cell. */
  lemma {:induction false} WalkLandsOnLeaf(pool: seq<IndirectionGrid>, depthMax: u8, idx: nat, depth: nat, x: u8, y: u8, z: u8)
    requires WalkDefined(pool, depthMax, idx, depth, x, y, z)
    ensures var o := Walk(pool, depthMax, idx, depth, x, y, z);
            o.Stored? ==> o.slot < |pool| && o.cell < 8 && !pool[o.slot].cells[o.cell].cellType.Index?
    decreases depthMax as int - depth
  {
    if depth < depthMax as nat {
      var cell := pool[idx].cells[CellOf(pool[idx], depthMax, x, y, z)];
      var cs := CellSize(depthMax, pool[idx].depth);
      if cell.cellType.Index? {
        WalkLandsOnLeaf(pool, depthMax, PoolIndex(cell.data), depth + 1, Fine(x, cs), Fine(y, cs), Fine(z, cs));
      }
    }
  }

  /** Storing changes exactly one cell of one grid, which then holds `data`. */
  lemma StoreCellChangesOneCell(pool: seq<IndirectionGrid>, s: nat, c: nat, data: U8x3)
    requires s < |pool| && c < 8
    ensures var p := StoreCell(pool, Stored(s, c), data);
            |p| == |pool| && p[s].cells[c] == GridCell(Data, data)
            && p[s].depth == pool[s].depth && p[s].gridCoord == pool[s].gridCoord && p[s].poolCoord == pool[s].poolCoord
            && (forall i :: 0 <= i < 8 && i != c ==> p[s].cells[i] == pool[s].cells[i])
            && (forall j :: 0 <= j < |pool| && j != s ==> p[j] == pool[j])
  {
  }

  /** Turning a non-index cell into a data cell does not disturb a descent that ends there:
      the descent keeps its path and its end. */
  lemma {:induction false} WalkAfterStore(pool: seq<IndirectionGrid>, depthMax: u8, idx: nat, depth: nat, x: u8, y: u8, z: u8, data: U8x3)
    requires WalkDefined(pool, depthMax, idx, depth, x, y, z)
    requires Walk(pool, depthMax, idx, depth, x, y, z).Stored?
    ensures var o := Walk(pool, depthMax, idx, depth, x, y, z);
            o.slot < |pool| && o.cell < 8
            && WalkDefined(StoreCell(pool, o, data), depthMax, idx, depth, x, y, z)
            && Walk(StoreCell(pool, o, data), depthMax, idx, depth, x, y, z) == o
    decreases depthMax as int - depth
  {
    var o := Walk(pool, depthMax, idx, depth, x, y, z);
    WalkLandsOnLeaf(pool, depthMax, idx, depth, x, y, z);
    var p := StoreCell(pool, o, data);
    StoreCellChangesOneCell(pool, o.slot, o.cell, data);
    if depth < depthMax as nat {
      var ci := CellOf(pool[idx], depthMax, x, y, z);
      var cell := pool[idx].cells[ci];
      var cs := CellSize(depthMax, pool[idx].depth);
      if cell.cellType.Index? {
        WalkAfterStore(pool, depthMax, PoolIndex(cell.data), depth + 1, Fine(x, cs), Fine(y, cs), Fine(z, cs), data);
        assert p[idx].cells[ci] == cell;
      }
    }
  }

  /** Adding the same voxel twice leaves the pool as the first addition did. */
  lemma AddDataIdempotent(pool: seq<IndirectionGrid>, depthMax: u8, x: u8, y: u8, z: u8, data: U8x3)
    requires WalkDefined(pool, depthMax, 0, 0, x, y, z)
    ensures var o := Walk(pool, depthMax, 0, 0, x, y, z);
            (o.Stored? ==> o.slot < |pool| && o.cell < 8)
            && var p := StoreCell(pool, o, data);
            WalkDefined(p, depthMax, 0, 0, x, y, z)
            && var o' := Walk(p, depthMax, 0, 0, x, y, z);
            (o'.Stored? ==> o'.slot < |p| && o'.cell < 8)
            && StoreCell(p, o', data) == p
  {
    var o := Walk(pool, depthMax, 0, 0, x, y, z);
    if o.Stored? {
      WalkAfterStore(pool, depthMax, 0, 0, x, y, z, data);
      StoreCellChangesOneCell(pool, o.slot, o.cell, data);
      var p := StoreCell(pool, o, data);
      assert p[o.slot].cells[o.cell := GridCell(Data, data)] == p[o.slot].cells;
    }
  }

  /** In a tree of fresh grids, a voxel at the origin lands in the root grid's first cell,
      and a voxel anywhere else sends the source into its endless loop. */
  lemma FreshTreeDescent(pool: seq<IndirectionGrid>, depthMax: u8, x: u8, y: u8, z: u8)
    requires 1 <= depthMax <= 7 && |pool| > 0 && pool[0] == DefaultGrid()
    requires x as nat < Pow2(depthMax as nat) && y as nat < Pow2(depthMax as nat) && z as nat < Pow2(depthMax as nat)
    ensures WalkDefined(pool, depthMax, 0, 0, x, y, z)
    ensures Walk(pool, depthMax, 0, 0, x, y, z) == (if x == 0 && y == 0 && z == 0 then Stored(0, 0) else Diverges)
  {
    FreshRootStep(pool[0], depthMax, x, y, z);
  }

  /** The first level of a descent through a fresh root grid: panic-free, on an empty cell,
      the first one for the origin. */
  lemma FreshRootStep(g: IndirectionGrid, depthMax: u8, x: u8, y: u8, z: u8)
    requires 1 <= depthMax <= 7 && g == DefaultGrid()
    requires x as nat < Pow2(depthMax as nat) && y as nat < Pow2(depthMax as nat) && z as nat < Pow2(depthMax as nat)
    ensures StepDefined(g, depthMax, x, y, z)
    ensures g.cells[CellOf(g, depthMax, x, y, z)] == DefaultCell
    ensures x == 0 && y == 0 && z == 0 ==> CellOf(g, depthMax, x, y, z) == 0
  {
    var cs := CellSize(depthMax, g.depth);
    Pow2Facts(depthMax as nat);
    assert cs == Pow2(depthMax as nat - 1);
    CoarseBelowTwo(x, cs);
    CoarseBelowTwo(y, cs);
    CoarseBelowTwo(z, cs);
  }

  /** Cancelling a positive factor from both sides of `<`. */
  lemma MulLtCancel(a: int, b: int, c: int)
    requires c > 0 && a * c < b * c
    ensures a < b
  {
  }

  /** A position inside a grid of side `2 * cs` falls in one of its two halves. */
  lemma CoarseBelowTwo(v: u8, cs: nat)
    requires cs > 0 && v as nat < 2 * cs
    ensures Coarse(v, cs) < 2
    ensures Coarse(v, cs) == 0 <==> v as nat < cs
  {
    var g := Coarse(v, cs);
    MulLtCancel(g, 2, cs);
    if v as nat < cs {
      MulLtCancel(g, 1, cs);
    } else {
      MulLtCancel(1, g + 1, cs);
    }
  }

  /** `Octree::new` as written: `Vec::with_capacity` yields an empty vector, so the pool
      has no slot 0 for the root grid to be written to. */
  function NewPoolAsWritten(depthMax: u8): (pool: seq<IndirectionGrid>)
    ensures |pool| == 0
  {
    []
  }

  /** The root write of `Octree::new` as written indexes past the end of the pool for every
      `depth_max`. */
  lemma NewRootWriteOutOfBounds(depthMax: u8)
    ensures !(0 < |NewPoolAsWritten(depthMax)|)
  {
  }

  class Octree {
    var pool: array<IndirectionGrid>
    var gridsMax: U8x3
    var gridsNextFree: U8x3
    var depthMax: u8

    /** A tree of at most 7 levels (so `2^depth_max` is a `u8`), a pool of every slot a
        flattened pool coordinate can name, extents `2^depth_max` and the cursor in range. */
    predicate Valid()
      reads this, pool
    {
      && pool.Length == 0x1_0000
      && depthMax <= 7 && Pow2(depthMax as nat) <= 128
      && gridsMax == U8x3(Pow2(depthMax as nat) as u8, Pow2(depthMax as nat) as u8, Pow2(depthMax as nat) as u8)
      && CursorInRange(gridsNextFree, gridsMax)
    }

    /** `Octree::new(depth_max)`, with the pool allocated rather than left empty: the root
        slot holds a default grid, the cursor is at the origin. */
    constructor (depthMax: u8)
      requires depthMax <= 7
      ensures Valid() && fresh(pool)
      ensures this.depthMax == depthMax && gridsNextFree == Zero3
      ensures pool[0] == DefaultGrid()
      ensures forall i :: 0 <= i < pool.Length ==> pool[i] == DefaultGrid()
    {
      Pow2Facts(depthMax as nat);
      var side := Pow2(depthMax as nat) as u8;
      gridsMax := U8x3(side, side, side);
      pool := new IndirectionGrid[0x1_0000](_ => DefaultGrid());
      gridsNextFree := Zero3;
      this.depthMax := depthMax;
    }

    /** `allocate_node(depth, grid_coord)`: while free coordinates remain, writes a new grid
        placed at the cursor into the cursor's slot and advances the cursor; always returns
        the default grid. */
    method AllocateNode(depth: u8, gridCoord: U8x3) returns (g: IndirectionGrid)
      requires Valid()
      requires depth <= depthMax
      requires gridsNextFree.z < gridsMax.z ==> Flattens(gridsNextFree)
      modifies this, pool
      ensures Valid() && pool == old(pool) && depthMax == old(depthMax)
      ensures g == DefaultGrid()
      ensures old(gridsNextFree.z < gridsMax.z) ==>
                gridsNextFree == Advance(old(gridsNextFree), gridsMax)
                && pool[..] == old(pool[..])[PoolIndex(old(gridsNextFree)) := NewGrid(depth, gridCoord, old(gridsNextFree))]
      ensures old(gridsNextFree.z >= gridsMax.z) ==> gridsNextFree == old(gridsNextFree) && pool[..] == old(pool[..])
    {
      if gridsNextFree.z < gridsMax.z {
        var nextFree := gridsNextFree;
        if gridsNextFree.x < gridsMax.x - 1 {
          gridsNextFree := gridsNextFree.(x := gridsNextFree.x + 1);
        } else {
          if gridsNextFree.y < gridsMax.y - 1 {
            gridsNextFree := gridsNextFree.(x := 0, y := gridsNextFree.y + 1);
          } else {
            gridsNextFree := U8x3(0, 0, gridsNextFree.z + 1);
          }
        }
        var grid := NewGrid(depth, gridCoord, nextFree);
        var poolIndex := PoolIndex(nextFree);
        pool[poolIndex] := grid;
      }
      g := DefaultGrid();
    }

    /** `compute_offset(node_pool_coord, node_grid_coord, grid_size)`: the offset that,
        added to the node's grid coordinate wrapped to the grid size and to the pool's
        extent, gives the node's pool coordinate. */
    function ComputeOffset(nodePoolCoord: U8x3, nodeGridCoord: U8x3, gridSize: u8): (r: U8x3)
      reads this, pool
      requires Valid() && gridSize > 0
      requires (nodeGridCoord.x % gridSize) % gridsMax.x <= nodePoolCoord.x
      requires (nodeGridCoord.y % gridSize) % gridsMax.y <= nodePoolCoord.y
      requires (nodeGridCoord.z % gridSize) % gridsMax.z <= nodePoolCoord.z
      ensures r.x as int + ((nodeGridCoord.x % gridSize) % gridsMax.x) as int == nodePoolCoord.x as int
      ensures r.y as int + ((nodeGridCoord.y % gridSize) % gridsMax.y) as int == nodePoolCoord.y as int
      ensures r.z as int + ((nodeGridCoord.z % gridSize) % gridsMax.z) as int == nodePoolCoord.z as int
      ensures r.x <= nodePoolCoord.x && r.y <= nodePoolCoord.y && r.z <= nodePoolCoord.z
    {
      var ti := (nodeGridCoord.x % gridSize) % gridsMax.x;
      var tj := (nodeGridCoord.y % gridSize) % gridsMax.y;
      var tk := (nodeGridCoord.z % gridSize) % gridsMax.z;
      U8x3(nodePoolCoord.x - ti, nodePoolCoord.y - tj, nodePoolCoord.z - tk)
    }

    /** `set_grid(offset, grid)`: writes exactly the slot the offset flattens to. */
    method SetGrid(offset: U8x3, grid: IndirectionGrid)
      requires Valid() && Flattens(offset)
      modifies pool
      ensures pool[..] == old(pool[..])[PoolIndex(offset) := grid]
    {
      var index := PoolIndex(offset);
      pool[index] := grid;
    }

    /** `add_data(x, y, z, data)`: descends from the root slot, level by level, to the cell
        the voxel falls in and stores `data` there. The result says how the descent ended;
        the source returns nothing. */
    method AddData(x0: u8, y0: u8, z0: u8, data: U8x3) returns (outcome: AddOutcome)
      requires Valid()
      requires WalkDefined(pool[..], depthMax, 0, 0, x0, y0, z0)
      modifies pool
      ensures outcome == Walk(old(pool[..]), depthMax, 0, 0, x0, y0, z0)
      ensures outcome.Stored? ==> outcome.slot < pool.Length && outcome.cell < 8
      ensures pool[..] == StoreCell(old(pool[..]), outcome, data)
    {
      var x, y, z := x0, y0, z0;
      var poolIndex: nat := 0;
      var depth: nat := 0;
      while depth < depthMax as nat
        invariant pool[..] == old(pool[..])
        invariant WalkDefined(pool[..], depthMax, poolIndex, depth, x, y, z)
        invariant Walk(pool[..], depthMax, poolIndex, depth, x, y, z) == Walk(old(pool[..]), depthMax, 0, 0, x0, y0, z0)
        decreases depthMax as int - depth
      {
        var grid := pool[poolIndex];
        var gridCellSize := CellSize(depthMax, grid.depth);
        var gridX, gridY, gridZ := Coarse(x, gridCellSize), Coarse(y, gridCellSize), Coarse(z, gridCellSize);
        var cellIndex := CellIndex(gridX, gridY, gridZ);
        var cell := grid.cells[cellIndex];
        var poolOffsets := Zero3;
        match cell.cellType {
          case Empty =>
            if x == 0 && y == 0 && z == 0 {
              pool[poolIndex] := grid.(cells := grid.cells[cellIndex := GridCell(Data, data)]);
              return Stored(poolIndex, cellIndex);
            } else {
              // the source `continue`s here without moving `depth`, so its loop never ends
              return Diverges;
            }
          case Index =>
            poolOffsets := cell.data;
            x := Fine(x, gridCellSize);
            y := Fine(y, gridCellSize);
            z := Fine(z, gridCellSize);
          case Data =>
            pool[poolIndex] := grid.(cells := grid.cells[cellIndex := cell.(data := data)]);
            return Stored(poolIndex, cellIndex);
        }
        poolIndex := PoolIndex(poolOffsets);
        depth := depth + 1;
      }
      return Exhausted;
    }
  }
}
