/** `WorldData`: the chunks loaded around the player, a 3x3x3 window of chunk coordinates
    around a center. Moving the center unloads the chunks that leave the window and adds
    empty chunks for those that enter it. */
module WorldDatas {
  import opened Models

  type i32 = x: int | -0x8000_0000 <= x < 0x8000_0000

  /** A chunk coordinate, `[i32; 3]`. */
  datatype Coord = Coord(x: i32, y: i32, z: i32)

  /** A voxel's colour, four floating-point channels. */
  datatype Color = Color(r: real, g: real, b: real, a: real)

  datatype VoxelData = VoxelData(color: Color)

  /** A coordinate whose neighbours one step away in every axis are still `i32`: the window
      arithmetic `center[i] + d` does not overflow. */
  predicate Interior(c: Coord)
  {
    -0x8000_0000 < c.x < 0x7FFF_FFFF && -0x8000_0000 < c.y < 0x7FFF_FFFF && -0x8000_0000 < c.z < 0x7FFF_FFFF
  }

  /** `p` lies in the 3x3x3 window around `c`. */
  predicate InCube(c: Coord, p: Coord)
  {
    -1 <= p.x - c.x <= 1 && -1 <= p.y - c.y <= 1 && -1 <= p.z - c.z <= 1
  }

  /** `p` is in the window around `c` and comes before offset `(x, y, z)` in the loops'
      order: `z` outermost, then `y`, then `x`. */
  predicate Visited(c: Coord, p: Coord, z: int, y: int, x: int)
  {
    InCube(c, p)
    && (p.z - c.z < z || (p.z - c.z == z && (p.y - c.y < y || (p.y - c.y == y && p.x - c.x < x))))
  }

  /** `p` is in the window around the optional old center. */
  predicate InOldCube(center: Option<Coord>, p: Coord)
  {
    center.Some? && InCube(center.value, p)
  }

  /** The coordinates `move_to(coord)` reports: in the new window and not in the old one. */
  predicate Entering(center: Option<Coord>, coord: Coord, p: Coord)
  {
    InCube(coord, p) && !InOldCube(center, p)
  }

  /** The coordinates whose chunks `move_to(coord)` unloads: in the old window, not the new. */
  predicate Leaving(center: Option<Coord>, coord: Coord, p: Coord)
  {
    InOldCube(center, p) && !InCube(coord, p)
  }

  /** Entering and leaving are disjoint, and neither touches the overlap of the two windows;
      with no old center every coordinate of the new window enters and none leaves. */
  lemma EnteringLeavingSplit(center: Option<Coord>, coord: Coord, p: Coord)
    ensures !(Entering(center, coord, p) && Leaving(center, coord, p))
    ensures InOldCube(center, p) && InCube(coord, p) ==> !Entering(center, coord, p) && !Leaving(center, coord, p)
    ensures center.None? ==> (Entering(center, coord, p) <==> InCube(coord, p)) && !Leaving(center, coord, p)
    ensures center == Some(coord) ==> !Entering(center, coord, p) && !Leaving(center, coord, p)
  {
  }

  /** Staying put reports nothing and unloads nothing; any move changes the window by
      whole slabs: a coordinate enters only if it differs from the old center by 2 in
      some axis. */
  lemma EnteringIsFarFromOldCenter(c: Coord, coord: Coord, p: Coord)
    requires Entering(Some(c), coord, p)
    ensures p.x - c.x >= 2 || c.x - p.x >= 2 || p.y - c.y >= 2 || c.y - p.y >= 2 || p.z - c.z >= 2 || c.z - p.z >= 2
  {
  }

  /** The 27 coordinates of the window around `c`, listed `x` fastest, then `y`, then `z`. */
  function CubeList(c: Coord): (s: seq<Coord>)
    requires Interior(c)
    ensures |s| == 27
  {
    seq(27, i requires 0 <= i < 27 => Coord(c.x + i % 3 - 1, c.y + (i / 3) % 3 - 1, c.z + i / 9 - 1))
  }

  /** Window offsets `(a, b, d)`, each in `0..3`, and list positions below 27 are in
      one-to-one correspondence through `a + 3b + 9d`. */
  lemma OffsetEncoding(a: int, b: int, d: int)
    requires 0 <= a < 3 && 0 <= b < 3 && 0 <= d < 3
    ensures var i := a + 3 * b + 9 * d; 0 <= i < 27 && i % 3 == a && (i / 3) % 3 == b && i / 9 == d
  {
  }

  /** A list position below 27 is the encoding of its three offsets. */
  lemma IndexDecodes(i: int)
    requires 0 <= i < 27
    ensures 0 <= i % 3 < 3 && 0 <= (i / 3) % 3 < 3 && 0 <= i / 9 < 3
    ensures i == i % 3 + 3 * ((i / 3) % 3) + 9 * (i / 9)
  {
  }

  /** `CubeList` lists the window exactly, each coordinate once. */
  lemma CubeListSpec(c: Coord)
    requires Interior(c)
    ensures forall p :: p in CubeList(c) <==> InCube(c, p)
    ensures forall i, j :: 0 <= i < j < 27 ==> CubeList(c)[i] != CubeList(c)[j]
  {
    var s := CubeList(c);
    forall p | InCube(c, p) ensures p in s {
      var a, b, d := p.x - c.x + 1, p.y - c.y + 1, p.z - c.z + 1;
      OffsetEncoding(a, b, d);
      assert s[a + 3 * b + 9 * d] == p;
    }
    forall i, j | 0 <= i < j < 27 ensures s[i] != s[j] {
      IndexDecodes(i);
      IndexDecodes(j);
    }
  }

  /** With no old center, `move_to` reports all 27 coordinates of the new window; and it
      never reports more. */
  lemma EnteredCount(center: Option<Coord>, coord: Coord, entered: seq<Coord>)
    requires Interior(coord)
    requires forall p :: p in entered <==> Entering(center, coord, p)
    requires forall i, j :: 0 <= i < j < |entered| ==> entered[i] != entered[j]
    ensures |entered| <= 27
    ensures center.None? ==> |entered| == 27
  {
    CubeListSpec(coord);
    var keys := set p | p in entered;
    DistinctCardinality(entered, keys);
    var cube := set p | p in CubeList(coord);
    DistinctCardinality(CubeList(coord), cube);
    assert cube * keys == keys;
    assert |cube| == |cube - keys| + |keys|;
    if center.None? {
      assert keys == cube;
    }
  }

  class WorldData {
    var center: Option<Coord>
    var chunks: map<Coord, seq<VoxelData>>

    /** `WorldData::new()`. */
    constructor ()
      ensures center == None && chunks == map[]
    {
      center := None;
      chunks := map[];
    }

    /** `add_chunk(coord, chunk)`: stores or replaces exactly the chunk at `coord`. */
    method AddChunk(coord: Coord, chunk: seq<VoxelData>)
      modifies this
      ensures chunks == old(chunks)[coord := chunk]
      ensures center == old(center)
    {
      chunks := chunks[coord := chunk];
    }

    /** `move_to(coord)`: recentres the window on `coord`, unloads the chunks that left it,
        adds an empty chunk for each coordinate that entered it, and returns those
        coordinates (in the order the set hands them out). */
    method MoveTo(coord: Coord) returns (entered: seq<Coord>)
      requires Interior(coord)
      requires center.Some? ==> Interior(center.value)
      modifies this
      ensures center == Some(coord)
      ensures forall p :: p in entered <==> Entering(old(center), coord, p)
      ensures forall i, j :: 0 <= i < j < |entered| ==> entered[i] != entered[j]
      ensures forall p :: p in chunks <==> (p in old(chunks) && !Leaving(old(center), coord, p)) || p in entered
      ensures forall p :: p in entered ==> chunks[p] == []
      ensures forall p :: p in old(chunks) && !Leaving(old(center), coord, p) && !Entering(old(center), coord, p) ==>
                chunks[p] == old(chunks)[p]
    {
      var oldCoords := OldWindow(center);
      var leaving, newCoords := SplitWindow(center, coord, oldCoords);
      Unload(leaving);
      entered := Load(newCoords);
      center := Some(coord);
    }

    /** The loop that removes the chunks of every coordinate in `leaving`. */
    method Unload(leaving: set<Coord>)
      modifies this
      ensures forall p :: p in chunks <==> p in old(chunks) && p !in leaving
      ensures forall p :: p in chunks ==> chunks[p] == old(chunks)[p]
      ensures center == old(center)
    {
      var rest := leaving;
      while rest != {}
        invariant rest <= leaving
        invariant forall p :: p in chunks <==> p in old(chunks) && !(p in leaving && p !in rest)
        invariant forall p :: p in chunks ==> chunks[p] == old(chunks)[p]
        invariant center == old(center)
        decreases |rest|
      {
        var oldCoord :| oldCoord in rest;
        chunks := chunks - {oldCoord};
        rest := rest - {oldCoord};
      }
    }

    /** The loop that adds an empty chunk for every coordinate in `entering`, reporting each
        once. */
    method Load(entering: set<Coord>) returns (entered: seq<Coord>)
      modifies this
      ensures forall p :: p in entered <==> p in entering
      ensures forall i, j :: 0 <= i < j < |entered| ==> entered[i] != entered[j]
      ensures forall p :: p in chunks <==> p in old(chunks) || p in entered
      ensures forall p :: p in entered ==> chunks[p] == []
      ensures forall p :: p in chunks && p !in entered ==> chunks[p] == old(chunks)[p]
      ensures center == old(center)
    {
      entered := [];
      var rest := entering;
      while rest != {}
        invariant rest <= entering
        invariant forall p :: p in entered <==> p in entering && p !in rest
        invariant forall i, j :: 0 <= i < j < |entered| ==> entered[i] != entered[j]
        invariant forall p :: p in chunks <==> p in old(chunks) || p in entered
        invariant forall p :: p in entered ==> chunks[p] == []
        invariant forall p :: p in chunks && p !in entered ==> chunks[p] == old(chunks)[p]
        invariant center == old(center)
        decreases |rest|
      {
        var newCoord :| newCoord in rest;
        chunks := chunks[newCoord := []];
        entered := entered + [newCoord];
        rest := rest - {newCoord};
      }
    }
  }

  /** The first triple loop of `move_to`: every coordinate of the window around the old
      center, or none when there is no center yet. */
  method OldWindow(center: Option<Coord>) returns (oldCoords: set<Coord>)
    requires center.Some? ==> Interior(center.value)
    ensures forall p :: p in oldCoords <==> InOldCube(center, p)
  {
    oldCoords := {};
    var z := -1;
    while z <= 1
      invariant -1 <= z <= 2
      invariant forall p :: p in oldCoords <==> center.Some? && Visited(center.value, p, z, -1, -1)
    {
      var y := -1;
      while y <= 1
        invariant -1 <= y <= 2
        invariant forall p :: p in oldCoords <==> center.Some? && Visited(center.value, p, z, y, -1)
      {
        var x := -1;
        while x <= 1
          invariant -1 <= x <= 2
          invariant forall p :: p in oldCoords <==> center.Some? && Visited(center.value, p, z, y, x)
        {
          if center.Some? {
            var c := center.value;
            var currentCoord := Coord(c.x + x, c.y + y, c.z + z);
            oldCoords := oldCoords + {currentCoord};
          }
          x := x + 1;
        }
        y := y + 1;
      }
      z := z + 1;
    }
  }

  /** The second triple loop of `move_to`: walks the new window, striking each coordinate
      already in the old window from `oldCoords` and collecting the others as new. */
  method SplitWindow(center: Option<Coord>, coord: Coord, oldCoords0: set<Coord>)
    returns (oldCoords: set<Coord>, newCoords: set<Coord>)
    requires Interior(coord)
    requires forall p :: p in oldCoords0 <==> InOldCube(center, p)
    ensures forall p :: p in oldCoords <==> Leaving(center, coord, p)
    ensures forall p :: p in newCoords <==> Entering(center, coord, p)
  {
    oldCoords := oldCoords0;
    newCoords := {};
    var z := -1;
    while z <= 1
      invariant -1 <= z <= 2
      invariant forall p :: p in oldCoords <==> InOldCube(center, p) && !Visited(coord, p, z, -1, -1)
      invariant forall p :: p in newCoords <==> Visited(coord, p, z, -1, -1) && !InOldCube(center, p)
    {
      var y := -1;
      while y <= 1
        invariant -1 <= y <= 2
        invariant forall p :: p in oldCoords <==> InOldCube(center, p) && !Visited(coord, p, z, y, -1)
        invariant forall p :: p in newCoords <==> Visited(coord, p, z, y, -1) && !InOldCube(center, p)
      {
        var x := -1;
        while x <= 1
          invariant -1 <= x <= 2
          invariant forall p :: p in oldCoords <==> InOldCube(center, p) && !Visited(coord, p, z, y, x)
          invariant forall p :: p in newCoords <==> Visited(coord, p, z, y, x) && !InOldCube(center, p)
        {
          var currentCoord := Coord(coord.x + x, coord.y + y, coord.z + z);
          if currentCoord in oldCoords {
            oldCoords := oldCoords - {currentCoord};
          } else {
            newCoords := newCoords + {currentCoord};
          }
          x := x + 1;
        }
        y := y + 1;
      }
      z := z + 1;
    }
  }
}
