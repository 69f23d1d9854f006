/**
 A chunk: a dense 16x16x16 block array at a chunk coordinate, filled once by
 terrain generation, edited cell by cell, and turned into a face-culled mesh
 whenever it is dirty. The world the chunk sits in enters only through two
 capabilities passed as parameters: the terrain height of a column, and the
 block at any world cell (used to cull faces across the chunk boundary).
 */
module Chunks {
  import opened Voxels
  import opened MeshBuffers

  /** Number of cells in a chunk: a cube of 16 blocks on each edge. */
  const Volume: int := 4096

  /** The surface height of the world column at (x, z). */
  type HeightFn = (int, int) -> int

  /** The block at a world cell, as the world reports it. */
  type Lookup = Cell -> Block

  /** The chunk's block array, one entry per cell. A fresh array holds
      byte 0 everywhere, which is `Air`. */
  type BlockArray = s: seq<Block> | |s| == 4096 witness seq(4096, i => Air)

  datatype Chunk = Chunk(pos: Cell, blocks: BlockArray, mesh: Option<Mesh>, dirty: bool)

  predicate InChunk(x: int, y: int, z: int)
  {
    0 <= x < 16 && 0 <= y < 16 && 0 <= z < 16
  }

  predicate InChunkCell(c: Cell)
  {
    InChunk(c.x, c.y, c.z)
  }

  /** Array position of a local cell, x fastest-varying. */
  function GetIndex(x: int, y: int, z: int): (i: int)
    ensures InChunk(x, y, z) ==> 0 <= i < Volume
  {
    x + y * 16 + z * 256
  }

  /** The local cell stored at array position `i`. */
  function CellOfIndex(i: int): (c: Cell)
    requires 0 <= i < Volume
    ensures InChunkCell(c)
    ensures GetIndex(c.x, c.y, c.z) == i
  {
    Cell(i % 16, (i / 16) % 16, i / 16 / 16)
  }

  /** Division by 16 with a known quotient and remainder. */
  lemma DivMod16(n: int, q: int, r: int)
    requires 0 <= r < 16 && n == q * 16 + r
    ensures n / 16 == q && n % 16 == r
  {
  }

  /** `GetIndex` is a bijection from the local cells onto the array
      positions [0, 4096): `CellOfIndex` undoes it (and, by the ensures of
      `CellOfIndex`, it undoes `CellOfIndex`). */
  lemma IndexBijection(x: int, y: int, z: int)
    requires InChunk(x, y, z)
    ensures 0 <= GetIndex(x, y, z) < Volume
    ensures CellOfIndex(GetIndex(x, y, z)) == Cell(x, y, z)
  {
    var j := GetIndex(x, y, z);
    DivMod16(j, y + z * 16, x);
    DivMod16(j / 16, z, y);
  }

  /** Two local cells share an array position only if they are the same cell. */
  lemma IndexInjective(a: Cell, b: Cell)
    requires InChunkCell(a) && InChunkCell(b)
    requires GetIndex(a.x, a.y, a.z) == GetIndex(b.x, b.y, b.z)
    ensures a == b
  {
    IndexBijection(a.x, a.y, a.z);
    IndexBijection(b.x, b.y, b.z);
  }

  /** The block at a local cell of a block array; any coordinate outside
      [0, 16) reads as `Air` without looking at the array. */
  function ReadBlock(blocks: BlockArray, x: int, y: int, z: int): (b: Block)
    ensures !InChunk(x, y, z) ==> b == Air
    ensures InChunk(x, y, z) ==> b == blocks[GetIndex(x, y, z)]
  {
    if x < 0 || x >= 16 || y < 0 || y >= 16 || z < 0 || z >= 16 then Air
    else blocks[GetIndex(x, y, z)]
  }

  /** The block at a local cell of a chunk. */
  function GetBlock(c: Chunk, x: int, y: int, z: int): Block
  {
    ReadBlock(c.blocks, x, y, z)
  }

  /** Writes one cell and marks the chunk dirty. There is no bounds check:
      the write lands at `GetIndex(x, y, z)`, and a typed-array write to a
      position outside the array is ignored. */
  function SetBlock(c: Chunk, x: int, y: int, z: int, t: Block): (r: Chunk)
    ensures r.dirty && r.pos == c.pos && r.mesh == c.mesh
    ensures InChunk(x, y, z) ==> GetBlock(r, x, y, z) == t
    ensures InChunk(x, y, z) ==>
      forall x', y', z' :: x' != x || y' != y || z' != z ==> GetBlock(r, x', y', z') == GetBlock(c, x', y', z')
  {
    var i := GetIndex(x, y, z);
    var blocks := if 0 <= i < Volume then c.blocks[i := t] else c.blocks;
    var r := c.(blocks := blocks, dirty := true);
    assert InChunk(x, y, z) ==>
      forall x', y', z' :: x' != x || y' != y || z' != z ==> GetBlock(r, x', y', z') == GetBlock(c, x', y', z') by {
      if InChunk(x, y, z) {
        forall x', y', z' | x' != x || y' != y || z' != z
          ensures GetBlock(r, x', y', z') == GetBlock(c, x', y', z')
        {
          if InChunk(x', y', z') && GetIndex(x', y', z') == GetIndex(x, y, z) {
            IndexInjective(Cell(x', y', z'), Cell(x, y, z));
          }
        }
      }
    }
    r
  }

  /** The terrain block at world height `wy` in a column whose surface
      height is `h`. */
  function Terrain(h: int, wy: int): Block
  {
    if wy < h - 3 then Stone
    else if wy < h - 1 then Dirt
    else if wy < h then Grass
    else Air
  }

  /** A column reads, from the top down: air from `h` upwards, one grass
      block at `h - 1`, two dirt blocks at `h - 2` and `h - 3`, and stone
      from `h - 4` downwards. */
  lemma TerrainLayers(h: int, wy: int)
    ensures Terrain(h, wy) == Air <==> wy >= h
    ensures Terrain(h, wy) == Grass <==> wy == h - 1
    ensures Terrain(h, wy) == Dirt <==> wy == h - 2 || wy == h - 3
    ensures Terrain(h, wy) == Stone <==> wy <= h - 4
    ensures Terrain(h, wy) in {Air, Grass, Dirt, Stone}
  {
  }

  /** The world cell of the chunk's local origin. */
  function Origin(pos: Cell): Cell
  {
    Cell(pos.x * 16, pos.y * 16, pos.z * 16)
  }

  /** The generated block array of the chunk at `pos`: every cell holds the
      terrain block for its world height in its own column. */
  function Generate(height: HeightFn, pos: Cell): (blocks: BlockArray)
    ensures forall i :: 0 <= i < 4096 ==> blocks[i] == GeneratedCell(height, pos, i)
  {
    var s := seq(4096, i requires 0 <= i < 4096 => GeneratedCell(height, pos, i));
    assert |s| == 4096;
    s
  }

  /** The terrain block generation puts at local cell (x, y, z) of the
      chunk at `pos`. */
  function TerrainAt(height: HeightFn, pos: Cell, x: int, y: int, z: int): Block
  {
    var o := Origin(pos);
    Terrain(height(o.x + x, o.z + z), o.y + y)
  }

  /** The generated block at array position `i` of the chunk at `pos`. */
  function GeneratedCell(height: HeightFn, pos: Cell, i: int): Block
    requires 0 <= i < 4096
  {
    var l := CellOfIndex(i);
    TerrainAt(height, pos, l.x, l.y, l.z)
  }

  /** Generation puts the terrain block of each local cell at that cell's
      array position. */
  lemma GenerateAt(height: HeightFn, pos: Cell, x: int, y: int, z: int)
    requires InChunk(x, y, z)
    ensures 0 <= GetIndex(x, y, z) < Volume
    ensures Generate(height, pos)[GetIndex(x, y, z)] == TerrainAt(height, pos, x, y, z)
  {
    IndexBijection(x, y, z);
  }

  /** A chunk as its constructor leaves it: generated, without a mesh, dirty. */
  function NewChunk(height: HeightFn, pos: Cell): (c: Chunk)
    ensures c.pos == pos && c.mesh == None && c.dirty
    ensures forall x, y, z :: InChunk(x, y, z) ==> GetBlock(c, x, y, z) == TerrainAt(height, pos, x, y, z)
  {
    var c := Chunk(pos, Generate(height, pos), None, true);
    assert forall x, y, z :: InChunk(x, y, z) ==> GetBlock(c, x, y, z) == TerrainAt(height, pos, x, y, z) by {
      forall x, y, z | InChunk(x, y, z)
        ensures GetBlock(c, x, y, z) == TerrainAt(height, pos, x, y, z)
      {
        GenerateAt(height, pos, x, y, z);
      }
    }
    c
  }

  /** Cell `l` comes before the generation cursor (ix, iz, iy): columns are
      visited x-major then z, and each column bottom to top. */
  predicate GeneratedBefore(l: Cell, ix: int, iz: int, iy: int)
  {
    l.x < ix || (l.x == ix && (l.z < iz || (l.z == iz && l.y < iy)))
  }

  /** Local cell `l` holds its terrain block if it comes before the
      generation cursor, and the fresh array's `Air` otherwise. */
  predicate FilledCell(c: Chunk, height: HeightFn, ix: int, iz: int, iy: int, l: Cell)
  {
    GetBlock(c, l.x, l.y, l.z) == if GeneratedBefore(l, ix, iz, iy) then TerrainAt(height, c.pos, l.x, l.y, l.z) else Air
  }

  /** Every local cell is filled as far as the cursor (ix, iz, iy). */
  ghost predicate FilledUpTo(c: Chunk, height: HeightFn, ix: int, iz: int, iy: int)
  {
    forall l :: InChunkCell(l) ==> FilledCell(c, height, ix, iz, iy, l)
  }

  /** One cell after a write at the cursor: the written cell now holds its
      terrain block and every other cell reads as before, so the cell is
      filled as far as the next cursor position. */
  lemma FillCellStep(c: Chunk, r: Chunk, height: HeightFn, ix: int, iz: int, iy: int, l: Cell)
    requires r.pos == c.pos && InChunkCell(l)
    requires FilledCell(c, height, ix, iz, iy, l)
    requires l == Cell(ix, iy, iz) ==> GetBlock(r, l.x, l.y, l.z) == TerrainAt(height, c.pos, ix, iy, iz)
    requires l != Cell(ix, iy, iz) ==> GetBlock(r, l.x, l.y, l.z) == GetBlock(c, l.x, l.y, l.z)
    ensures FilledCell(r, height, ix, iz, iy + 1, l)
  {
  }

  /** Writing the terrain block at the cursor advances the cursor by one
      cell up the column. */
  lemma FillStep(c: Chunk, height: HeightFn, ix: int, iz: int, iy: int, h: int)
    requires InChunk(ix, iy, iz)
    requires h == height(Origin(c.pos).x + ix, Origin(c.pos).z + iz)
    requires FilledUpTo(c, height, ix, iz, iy)
    ensures FilledUpTo(SetBlock(c, ix, iy, iz, Terrain(h, c.pos.y * 16 + iy)), height, ix, iz, iy + 1)
  {
    var r := SetBlock(c, ix, iy, iz, Terrain(h, c.pos.y * 16 + iy));
    assert GetBlock(r, ix, iy, iz) == TerrainAt(height, c.pos, ix, iy, iz);
    forall l | InChunkCell(l)
      ensures FilledCell(r, height, ix, iz, iy + 1, l)
    {
      if l != Cell(ix, iy, iz) {
        assert l.x != ix || l.y != iy || l.z != iz;
      }
      FillCellStep(c, r, height, ix, iz, iy, l);
    }
  }

  /** One column of `generate`: sixteen `SetBlock` calls from the bottom
      up, each writing the terrain block for height `h`, the column's height
      query. */
  method FillColumn(c: Chunk, height: HeightFn, ix: int, iz: int, h: int) returns (r: Chunk)
    requires 0 <= ix < 16 && 0 <= iz < 16
    requires h == height(Origin(c.pos).x + ix, Origin(c.pos).z + iz)
    requires FilledUpTo(c, height, ix, iz, 0)
    ensures r.pos == c.pos && r.mesh == c.mesh && r.dirty
    ensures FilledUpTo(r, height, ix, iz, 16)
  {
    r := c.(dirty := true);
    var iy := 0;
    while iy < 16
      invariant 0 <= iy <= 16
      invariant r.pos == c.pos && r.mesh == c.mesh && r.dirty
      invariant FilledUpTo(r, height, ix, iz, iy)
    {
      var worldY := c.pos.y * 16 + iy;
      FillStep(r, height, ix, iz, iy, h);
      r := SetBlock(r, ix, iy, iz, Terrain(h, worldY));
      iy := iy + 1;
    }
  }

  /** A chunk filled up to the end holds the generated array. */
  lemma FilledAll(c: Chunk, height: HeightFn)
    requires FilledUpTo(c, height, 16, 0, 0)
    ensures c.blocks == Generate(height, c.pos)
  {
    var n := NewChunk(height, c.pos);
    forall i | 0 <= i < 4096
      ensures c.blocks[i] == n.blocks[i]
    {
      var l := CellOfIndex(i);
      assert FilledCell(c, height, 16, 0, 0, l);
      assert GetBlock(c, l.x, l.y, l.z) == GetBlock(n, l.x, l.y, l.z);
    }
  }

  /** The column queries of generation, in order: x-major, then z. */
  function ColumnQuery(pos: Cell, q: int): (int, int)
  {
    (pos.x * 16 + q / 16, pos.z * 16 + q % 16)
  }

  /** The 256 column queries name 256 different columns. */
  lemma ColumnQueriesDistinct(pos: Cell, p: int, q: int)
    requires 0 <= p < q < 256
    ensures ColumnQuery(pos, p) != ColumnQuery(pos, q)
  {
    assert p == (p / 16) * 16 + p % 16;
    assert q == (q / 16) * 16 + q % 16;
  }

  /** The constructor and `generate` as written: a fresh all-air chunk,
      then for each column (x outer, z inner) one height query and sixteen
      `SetBlock` calls from the bottom up. The result is `NewChunk`, and the
      height function is queried exactly once per column. */
  method Construct(height: HeightFn, pos: Cell) returns (c: Chunk, queries: seq<(int, int)>)
    ensures c == NewChunk(height, pos)
    ensures |queries| == 256
    ensures forall q :: 0 <= q < 256 ==> queries[q] == ColumnQuery(pos, q)
    ensures Distinct(queries)
  {
    c := Chunk(pos, seq(4096, i => Air), None, true);
    queries := [];
    var ix := 0;
    while ix < 16
      invariant 0 <= ix <= 16
      invariant c.pos == pos && c.mesh == None && c.dirty
      invariant FilledUpTo(c, height, ix, 0, 0)
      invariant |queries| == 16 * ix
      invariant forall q :: 0 <= q < |queries| ==> queries[q] == ColumnQuery(pos, q)
    {
      var iz := 0;
      while iz < 16
        invariant 0 <= iz <= 16
        invariant c.pos == pos && c.mesh == None && c.dirty
        invariant FilledUpTo(c, height, ix, iz, 0)
        invariant |queries| == 16 * ix + iz
        invariant forall q :: 0 <= q < |queries| ==> queries[q] == ColumnQuery(pos, q)
      {
        var worldX := pos.x * 16 + ix;
        var worldZ := pos.z * 16 + iz;
        var h := height(worldX, worldZ);
        DivMod16(|queries|, ix, iz);
        queries := queries + [(worldX, worldZ)];
        c := FillColumn(c, height, ix, iz, h);
        iz := iz + 1;
      }
      ix := ix + 1;
    }
    FilledAll(c, height);
    forall p, q | 0 <= p < q < 256
      ensures queries[p] != queries[q]
    {
      ColumnQueriesDistinct(pos, p, q);
    }
  }

  /** A face in direction `d` of world cell `w`, holding block `b`, exactly
      when the world reports `Air` across that face. */
  function FaceIf(w: Cell, d: Dir, b: Block, world: Lookup): seq<Face>
  {
    if world(Step(w, d)) == Air then [Face(w, d, b)] else []
  }

  /** The faces of world cell `w` holding block `b` for the directions
      `Dirs[k..]`, in test order. */
  function DirFaces(w: Cell, b: Block, world: Lookup, k: nat): seq<Face>
    decreases 6 - k
  {
    if k >= 6 then []
    else FaceIf(w, Dirs[k], b, world) + DirFaces(w, b, world, k + 1)
  }

  /** The faces one local cell contributes, in the order +x, -x, +y, -y,
      +z, -z; an air cell contributes none. */
  function CellFaces(c: Chunk, world: Lookup, l: Cell): seq<Face>
  {
    var b := GetBlock(c, l.x, l.y, l.z);
    if b == Air then []
    else DirFaces(Add(Origin(c.pos), l), b, world, 0)
  }

  /** Cell `t` of the rebuild's visiting order: x outermost, then y, with z
      innermost. */
  function VisitCell(t: int): (l: Cell)
    requires 0 <= t < Volume
    ensures InChunkCell(l)
    ensures VisitIndex(l) == t
  {
    Cell(t / 16 / 16, (t / 16) % 16, t % 16)
  }

  /** The position of local cell `l` in the rebuild's visiting order. */
  function VisitIndex(l: Cell): int
  {
    l.x * 256 + l.y * 16 + l.z
  }

  /** Every local cell is visited, at position `VisitIndex`. */
  lemma VisitBijection(l: Cell)
    requires InChunkCell(l)
    ensures 0 <= VisitIndex(l) < Volume
    ensures VisitCell(VisitIndex(l)) == l
  {
    var j := VisitIndex(l);
    DivMod16(j, l.x * 16 + l.y, l.z);
    DivMod16(j / 16, l.x, l.y);
  }

  /** The local cells in the order the rebuild's three nested loops visit
      them. */
  function VisitOrder(): (cells: seq<Cell>)
    ensures |cells| == Volume
  {
    seq(4096, t requires 0 <= t < 4096 => VisitCell(t))
  }

  /** The visiting order lists every local cell, and only local cells. */
  lemma VisitOrderComplete()
    ensures forall l :: l in VisitOrder() <==> InChunkCell(l)
  {
    forall l
      ensures l in VisitOrder() <==> InChunkCell(l)
    {
      if InChunkCell(l) {
        VisitBijection(l);
        assert VisitOrder()[VisitIndex(l)] == l;
      }
    }
  }

  /** No cell is visited twice. */
  lemma VisitOrderDistinct()
    ensures Distinct(VisitOrder())
  {
    forall s, t | 0 <= s < t < Volume
      ensures VisitOrder()[s] != VisitOrder()[t]
    {
      assert VisitIndex(VisitCell(s)) != VisitIndex(VisitCell(t));
    }
  }

  /** The faces of the listed local cells, cell after cell. */
  function FacesOf(c: Chunk, world: Lookup, cells: seq<Cell>): seq<Face>
  {
    if |cells| == 0 then []
    else CellFaces(c, world, cells[0]) + FacesOf(c, world, cells[1..])
  }

  /** The face list a rebuild of `c` emits. */
  function BuildFaces(c: Chunk, world: Lookup): seq<Face>
  {
    FacesOf(c, world, VisitOrder())
  }

  /** The face culling rule: face `f` should be drawn for chunk `c` exactly
      when its cell lies in the chunk, holds a non-air block of the face's
      type, and the world reports `Air` across the face. */
  predicate Visible(c: Chunk, world: Lookup, f: Face)
  {
    var l := Sub(f.cell, Origin(c.pos));
    && InChunkCell(l)
    && GetBlock(c, l.x, l.y, l.z) != Air
    && f.block == GetBlock(c, l.x, l.y, l.z)
    && world(Step(f.cell, f.dir)) == Air
  }

  lemma {:induction false} DirFacesMembership(w: Cell, b: Block, world: Lookup, k: nat, f: Face)
    requires k <= 6
    ensures f in DirFaces(w, b, world, k) <==>
      f.cell == w && f.block == b && DirIndex(f.dir) >= k && world(Step(w, f.dir)) == Air
    decreases 6 - k
  {
    if k < 6 {
      DirFacesMembership(w, b, world, k + 1, f);
      DirsComplete(k);
    }
  }

  lemma {:induction false} DirFacesDistinct(w: Cell, b: Block, world: Lookup, k: nat)
    requires k <= 6
    ensures Distinct(DirFaces(w, b, world, k))
    decreases 6 - k
  {
    if k < 6 {
      DirFacesDistinct(w, b, world, k + 1);
      var head := FaceIf(w, Dirs[k], b, world);
      var tail := DirFaces(w, b, world, k + 1);
      forall g | g in head
        ensures g !in tail
      {
        DirFacesMembership(w, b, world, k + 1, g);
        DirsComplete(k);
      }
      DistinctConcat(head, tail);
    }
  }

  lemma CellFacesMembership(c: Chunk, world: Lookup, l: Cell, f: Face)
    requires InChunkCell(l)
    ensures f in CellFaces(c, world, l) <==> Visible(c, world, f) && Sub(f.cell, Origin(c.pos)) == l
  {
    var b := GetBlock(c, l.x, l.y, l.z);
    var w := Add(Origin(c.pos), l);
    assert Sub(f.cell, Origin(c.pos)) == l <==> f.cell == w;
    if b != Air {
      DirFacesMembership(w, b, world, 0, f);
    }
  }

  lemma CellFacesDistinct(c: Chunk, world: Lookup, l: Cell)
    ensures Distinct(CellFaces(c, world, l))
  {
    var b := GetBlock(c, l.x, l.y, l.z);
    if b != Air {
      DirFacesDistinct(Add(Origin(c.pos), l), b, world, 0);
    }
  }

  /** A cell is in a non-empty list iff it is the head or in the tail. */
  lemma InHeadOrTail(cells: seq<Cell>, l: Cell)
    requires |cells| > 0
    ensures l in cells <==> l == cells[0] || l in cells[1..]
  {
    assert cells == [cells[0]] + cells[1..];
  }

  lemma {:induction false} FacesOfMembership(c: Chunk, world: Lookup, cells: seq<Cell>, f: Face)
    requires forall i :: 0 <= i < |cells| ==> InChunkCell(cells[i])
    ensures f in FacesOf(c, world, cells) <==> Visible(c, world, f) && Sub(f.cell, Origin(c.pos)) in cells
  {
    if |cells| > 0 {
      var head := CellFaces(c, world, cells[0]);
      var tail := FacesOf(c, world, cells[1..]);
      assert FacesOf(c, world, cells) == head + tail;
      CellFacesMembership(c, world, cells[0], f);
      FacesOfMembership(c, world, cells[1..], f);
      InHeadOrTail(cells, Sub(f.cell, Origin(c.pos)));
    }
  }

  /** A list holding every local cell yields exactly the visible faces. */
  lemma FacesOfAllCells(c: Chunk, world: Lookup, cells: seq<Cell>, f: Face)
    requires forall l :: l in cells <==> InChunkCell(l)
    ensures f in FacesOf(c, world, cells) <==> Visible(c, world, f)
  {
    FacesOfMembership(c, world, cells, f);
  }

  /** A rebuild emits exactly the visible faces: a face in direction `d`
      for cell `w` iff `w` holds a non-air block and the world reports air
      at the neighbour `w + d`. */
  lemma BuildFacesExact(c: Chunk, world: Lookup)
    ensures forall f :: f in BuildFaces(c, world) <==> Visible(c, world, f)
  {
    VisitOrderComplete();
    forall f
      ensures f in BuildFaces(c, world) <==> Visible(c, world, f)
    {
      FacesOfAllCells(c, world, VisitOrder(), f);
    }
  }

  lemma {:induction false} FacesOfDistinct(c: Chunk, world: Lookup, cells: seq<Cell>)
    requires forall i :: 0 <= i < |cells| ==> InChunkCell(cells[i])
    requires Distinct(cells)
    ensures Distinct(FacesOf(c, world, cells))
  {
    if |cells| > 0 {
      var head := CellFaces(c, world, cells[0]);
      var tail := FacesOf(c, world, cells[1..]);
      CellFacesDistinct(c, world, cells[0]);
      FacesOfDistinct(c, world, cells[1..]);
      forall g | g in head
        ensures g !in tail
      {
        CellFacesMembership(c, world, cells[0], g);
        FacesOfMembership(c, world, cells[1..], g);
      }
      DistinctConcat(head, tail);
    }
  }

  /** No face is emitted twice, so the face count is the number of visible
      (cell, direction) pairs. */
  lemma BuildFacesDistinct(c: Chunk, world: Lookup)
    ensures Distinct(BuildFaces(c, world))
  {
    VisitOrderDistinct();
    FacesOfDistinct(c, world, VisitOrder());
  }

  /** A mesh slot after its mesh has been disposed: the same mesh, marked
      released, still referenced. */
  function Release(m: Option<Mesh>): (r: Option<Mesh>)
    ensures r.Some? <==> m.Some?
    ensures r.Some? ==> r.value.released && r.value.faces == m.value.faces
  {
    match m
    case None => None
    case Some(mesh) => Some(mesh.(released := true))
  }

  /** Rebuilds the mesh of a dirty chunk and clears the dirty flag; a clean
      chunk is returned as it is. The previous mesh is always released. A
      new mesh is installed only when at least one face is visible;
      otherwise the released previous mesh stays in the slot. */
  function UpdateMesh(c: Chunk, world: Lookup): (r: Chunk)
    ensures r == c.(mesh := r.mesh, dirty := false)
    ensures !c.dirty ==> r == c
  {
    if !c.dirty then c
    else
      var faces := BuildFaces(c, world);
      c.(mesh := if |faces| > 0 then Some(MeshOf(faces)) else Release(c.mesh), dirty := false)
  }

  /** What a rebuild of a dirty chunk installs: a live mesh exactly when
      some face is visible, and then the mesh of exactly the visible faces,
      each once; with no visible face, the released previous mesh. */
  lemma UpdateMeshFaces(c: Chunk, world: Lookup)
    requires c.dirty
    ensures var r := UpdateMesh(c, world);
      && ((r.mesh.Some? && !r.mesh.value.released) <==> exists f :: Visible(c, world, f))
      && (r.mesh.Some? && !r.mesh.value.released ==>
            && r.mesh == Some(MeshOf(r.mesh.value.faces))
            && Distinct(r.mesh.value.faces)
            && forall f :: f in r.mesh.value.faces <==> Visible(c, world, f))
      && ((forall f :: !Visible(c, world, f)) ==> r.mesh == Release(c.mesh))
  {
    var faces := BuildFaces(c, world);
    BuildFacesExact(c, world);
    BuildFacesDistinct(c, world);
    assert |faces| > 0 ==> faces[0] in faces;
  }

  /** Rebuilding twice without an edit in between is the same as
      rebuilding once. */
  lemma UpdateMeshIdempotent(c: Chunk, world: Lookup)
    ensures UpdateMesh(UpdateMesh(c, world), world) == UpdateMesh(c, world)
  {
  }

  /** Disposing a chunk releases its mesh but leaves the slot pointing at it. */
  function Dispose(c: Chunk): (r: Chunk)
    ensures r.pos == c.pos && r.blocks == c.blocks && r.dirty == c.dirty
    ensures r.mesh.Some? <==> c.mesh.Some?
    ensures r.mesh.Some? ==> r.mesh.value.released && r.mesh.value.faces == c.mesh.value.faces
  {
    c.(mesh := Release(c.mesh))
  }
}
