/**
 The world: a map from chunk coordinate to chunk, with global block access,
 lazy chunk creation on edits, rebuilds of the neighbouring chunks an edit on
 a chunk boundary can affect, and streaming of the chunks around the player.
 The chunk map is keyed by the coordinate itself; `ChunkKeys` shows that the
 string keys the world really uses identify coordinates one to one.
 */
module Worlds {
  import opened Voxels
  import opened MeshBuffers
  import Chunks

  /** How many chunks the streamed square reaches out from the player's
      chunk along x and along z. */
  const RenderDistance: int := 4

  datatype World = World(chunks: map<Cell, Chunk>)

  type Chunk = Chunks.Chunk

  /** Every chunk is stored under its own coordinate. */
  ghost predicate WellFormed(w: World)
  {
    forall k :: k in w.chunks ==> w.chunks[k].pos == k
  }

  /** The `%` of the source: the remainder of division truncated toward
      zero. `a` is `n` times the truncated quotient plus `r`, and `r` takes
      the sign of `a`. */
  function TruncRem(a: int, n: int): (r: int)
    requires n > 0
    ensures a == n * (if a >= 0 then a / n else -((-a) / n)) + r
    ensures -n < r < n
    ensures a >= 0 ==> r >= 0
    ensures a <= 0 ==> r <= 0
  {
    if a >= 0 then a % n else -((-a) % n)
  }

  /** The chunk coordinate of a global coordinate: its floor division by
      the chunk size. */
  function ChunkCoord(a: int): int
  {
    a / 16
  }

  /** The local coordinate: the remainder, made non-negative by adding the
      chunk size and taking the remainder again. */
  function LocalCoord(a: int): int
  {
    TruncRem(TruncRem(a, 16) + 16, 16)
  }

  /** Every global coordinate splits into its chunk's origin plus a local
      coordinate in [0, 16). */
  lemma Decompose(a: int)
    ensures a == ChunkCoord(a) * 16 + LocalCoord(a)
    ensures 0 <= LocalCoord(a) < 16
  {
  }

  /** The split is unique: a chunk origin plus any local coordinate in
      [0, 16) splits back into the same two parts. */
  lemma DecomposeUnique(k: int, l: int)
    requires 0 <= l < 16
    ensures ChunkCoord(k * 16 + l) == k
    ensures LocalCoord(k * 16 + l) == l
  {
    Decompose(k * 16 + l);
  }

  /** The coordinate -1 lies in chunk -1 at local coordinate 15. */
  lemma MinusOne()
    ensures ChunkCoord(-1) == -1 && LocalCoord(-1) == 15
  {
  }

  function ChunkOf(p: Cell): Cell
  {
    Cell(ChunkCoord(p.x), ChunkCoord(p.y), ChunkCoord(p.z))
  }

  function LocalOf(p: Cell): (l: Cell)
    ensures Chunks.InChunkCell(l)
  {
    Decompose(p.x);
    Decompose(p.y);
    Decompose(p.z);
    Cell(LocalCoord(p.x), LocalCoord(p.y), LocalCoord(p.z))
  }

  /** A world cell is its chunk's origin plus its local cell, and that
      split is the only one with a local cell inside the chunk. */
  lemma CellSplit(p: Cell, k: Cell, l: Cell)
    ensures Add(Chunks.Origin(ChunkOf(p)), LocalOf(p)) == p
    ensures Chunks.InChunkCell(l) && Add(Chunks.Origin(k), l) == p <==> k == ChunkOf(p) && l == LocalOf(p)
  {
    Decompose(p.x);
    Decompose(p.y);
    Decompose(p.z);
    if Chunks.InChunkCell(l) && Add(Chunks.Origin(k), l) == p {
      DecomposeUnique(k.x, l.x);
      DecomposeUnique(k.y, l.y);
      DecomposeUnique(k.z, l.z);
    }
  }

  /** The block arrays of the loaded chunks. */
  function Blocks(chunks: map<Cell, Chunk>): (m: map<Cell, Chunks.BlockArray>)
    ensures m.Keys == chunks.Keys
  {
    map k | k in chunks :: chunks[k].blocks
  }

  /** The block at world cell `p` given the loaded block arrays: `Air`
      when the cell's chunk is not loaded. */
  function BlockIn(blocks: map<Cell, Chunks.BlockArray>, p: Cell): Block
  {
    var k := ChunkOf(p);
    if k !in blocks then Air
    else
      var l := LocalOf(p);
      Chunks.ReadBlock(blocks[k], l.x, l.y, l.z)
  }

  /** The world's block lookup, as chunks see it when they cull faces. It
      depends on the loaded block arrays only. */
  function BlockLookup(w: World): Chunks.Lookup
  {
    p => BlockIn(Blocks(w.chunks), p)
  }

  /** The block at world cell `p`. */
  function GetBlock(w: World, p: Cell): (b: Block)
    ensures ChunkOf(p) !in w.chunks ==> b == Air
  {
    BlockIn(Blocks(w.chunks), p)
  }

  /** `GetBlock` unfolded to the chunk read it performs. */
  lemma ReadThrough(w: World, p: Cell)
    ensures GetBlock(w, p) ==
      if ChunkOf(p) in w.chunks then Chunks.GetBlock(w.chunks[ChunkOf(p)], LocalOf(p).x, LocalOf(p).y, LocalOf(p).z)
      else Air
  {
  }

  /** Local cell `l` of loaded chunk `k` is the world cell at the chunk's
      origin plus `l`: reading that world cell reads the chunk's block at
      `l`. */
  lemma GetBlockAt(w: World, k: Cell, l: Cell)
    requires k in w.chunks && Chunks.InChunkCell(l)
    ensures GetBlock(w, Add(Chunks.Origin(k), l)) == Chunks.GetBlock(w.chunks[k], l.x, l.y, l.z)
  {
    CellSplit(Add(Chunks.Origin(k), l), k, l);
  }

  /** Two chunk maps with the same keys, and under each key a chunk with
      the same position and block array: they differ at most in meshes and
      dirty flags. */
  predicate SameBlocks(a: map<Cell, Chunk>, b: map<Cell, Chunk>)
  {
    a.Keys == b.Keys && forall j :: j in a ==> a[j].blocks == b[j].blocks && a[j].pos == b[j].pos
  }

  /** Worlds that differ only in meshes and dirty flags read the same
      blocks, so chunk rebuilds in either see the same neighbours. */
  lemma SameBlocksLookup(a: World, b: World)
    requires SameBlocks(a.chunks, b.chunks)
    ensures BlockLookup(a) == BlockLookup(b)
    ensures forall p :: GetBlock(a, p) == GetBlock(b, p)
  {
    assert Blocks(a.chunks) == Blocks(b.chunks);
  }

  /** Meshes and dirty flags have no say in where a chunk is stored. */
  lemma SameBlocksWellFormed(a: World, b: World)
    requires SameBlocks(a.chunks, b.chunks) && WellFormed(b)
    ensures WellFormed(a)
  {
  }

  /** Replacing a chunk by one with the same blocks keeps the blocks. */
  lemma ReplaceSameBlocks(m: map<Cell, Chunk>, k: Cell, c: Chunk)
    requires k in m && c.blocks == m[k].blocks && c.pos == m[k].pos
    ensures SameBlocks(m[k := c], m)
  {
    assert m[k := c].Keys == m.Keys;
  }

  /** A local cell on the chunk face that direction `d` points out of. */
  predicate OnBoundary(l: Cell, d: Dir)
  {
    match d
    case PosX => l.x == 15
    case NegX => l.x == 0
    case PosY => l.y == 15
    case NegY => l.y == 0
    case PosZ => l.z == 15
    case NegZ => l.z == 0
  }

  /** The step from `p` in direction `d` leaves `p`'s chunk exactly when
      `p` lies on that chunk face, and then it enters the chunk next door
      in direction `d`. These neighbours are the only chunks whose culling
      can see `p`. */
  lemma StepAcrossBoundary(p: Cell, d: Dir)
    ensures ChunkOf(Step(p, d)) != ChunkOf(p) <==> OnBoundary(LocalOf(p), d)
    ensures ChunkOf(Step(p, d)) == if OnBoundary(LocalOf(p), d) then Step(ChunkOf(p), d) else ChunkOf(p)
  {
    var q := Step(p, d);
    Decompose(p.x);
    Decompose(p.y);
    Decompose(p.z);
    var k, l := ChunkOf(p), LocalOf(p);
    var k' := if OnBoundary(l, d) then Step(k, d) else k;
    var l' := match d
      case PosX => Cell(if l.x == 15 then 0 else l.x + 1, l.y, l.z)
      case NegX => Cell(if l.x == 0 then 15 else l.x - 1, l.y, l.z)
      case PosY => Cell(l.x, if l.y == 15 then 0 else l.y + 1, l.z)
      case NegY => Cell(l.x, if l.y == 0 then 15 else l.y - 1, l.z)
      case PosZ => Cell(l.x, l.y, if l.z == 15 then 0 else l.z + 1)
      case NegZ => Cell(l.x, l.y, if l.z == 0 then 15 else l.z - 1);
    CellSplit(q, k', l');
  }

  /** The neighbour (if any) across the faces of one axis: the low one when
      the local coordinate is 0, the high one when it is 15. */
  function AxisKeys(k: Cell, a: int, low: Dir, high: Dir): (r: seq<Cell>)
    ensures |r| <= 1
  {
    if a == 0 then [Step(k, low)] else if a == 15 then [Step(k, high)] else []
  }

  /** The neighbour chunks an edit at local cell `l` of chunk `k` rebuilds,
      in the order they are tested: -x, +x, -y, +y, -z, +z. A coordinate is
      never both 0 and 15, so each axis contributes at most one. */
  function NeighbourKeys(k: Cell, l: Cell): seq<Cell>
  {
    AxisKeys(k, l.x, NegX, PosX) + AxisKeys(k, l.y, NegY, PosY) + AxisKeys(k, l.z, NegZ, PosZ)
  }

  lemma DistinctPair(a: seq<Cell>, b: seq<Cell>)
    requires |a| <= 1 && |b| <= 1
    requires forall c :: c in a ==> c !in b
    ensures Distinct(a + b)
  {
    DistinctConcat(a, b);
  }

  lemma DistinctTriple(a: seq<Cell>, b: seq<Cell>, c: seq<Cell>)
    requires |a| <= 1 && |b| <= 1 && |c| <= 1
    requires forall x :: x in a ==> x !in b && x !in c
    requires forall x :: x in b ==> x !in c
    ensures Distinct(a + b + c)
  {
    DistinctPair(b, c);
    DistinctConcat(a, b + c);
    assert a + b + c == a + (b + c);
  }

  /** The neighbour list names exactly the chunks across the boundary faces
      `l` lies on. */
  lemma NeighbourKeysExact(k: Cell, l: Cell, c: Cell)
    ensures c in NeighbourKeys(k, l) <==> exists d :: c == Step(k, d) && OnBoundary(l, d)
  {
    var xs, ys, zs := AxisKeys(k, l.x, NegX, PosX), AxisKeys(k, l.y, NegY, PosY), AxisKeys(k, l.z, NegZ, PosZ);
    assert c in NeighbourKeys(k, l) <==> c in xs || c in ys || c in zs;
    if c in xs {
      assert c == Step(k, if l.x == 0 then NegX else PosX);
    } else if c in ys {
      assert c == Step(k, if l.y == 0 then NegY else PosY);
    } else if c in zs {
      assert c == Step(k, if l.z == 0 then NegZ else PosZ);
    }
    if exists d :: c == Step(k, d) && OnBoundary(l, d) {
      var d :| c == Step(k, d) && OnBoundary(l, d);
      match d
      case PosX => assert c in xs;
      case NegX => assert c in xs;
      case PosY => assert c in ys;
      case NegY => assert c in ys;
      case PosZ => assert c in zs;
      case NegZ => assert c in zs;
    }
  }

  /** Each neighbour is listed once, and the edited chunk is never among
      them. */
  lemma NeighbourKeysDistinct(k: Cell, l: Cell)
    ensures k !in NeighbourKeys(k, l)
    ensures Distinct(NeighbourKeys(k, l))
  {
    var xs, ys, zs := AxisKeys(k, l.x, NegX, PosX), AxisKeys(k, l.y, NegY, PosY), AxisKeys(k, l.z, NegZ, PosZ);
    assert forall x :: x in xs ==> x.x != k.x && x.y == k.y && x.z == k.z;
    assert forall x :: x in ys ==> x.x == k.x && x.y != k.y && x.z == k.z;
    assert forall x :: x in zs ==> x.x == k.x && x.y == k.y && x.z != k.z;
    DistinctTriple(xs, ys, zs);
  }

  /** Writing one key of a map leaves every other key's value alone. */
  lemma UpdateOthers<V>(m: map<Cell, V>, k: Cell, v: V)
    ensures forall j :: j in m && j != k ==> j in m[k := v] && m[k := v][j] == m[j]
  {
  }

  /** `updateChunkMesh`: a loaded chunk is marked dirty and rebuilt
      against the current world; a missing chunk is left missing. */
  function Rebuild(w: World, k: Cell): World
  {
    if k in w.chunks then
      World(w.chunks[k := Chunks.UpdateMesh(w.chunks[k].(dirty := true), BlockLookup(w))])
    else w
  }

  /** A rebuild changes no block and no other chunk, and leaves the rebuilt
      chunk clean. */
  lemma RebuildFacts(w: World, k: Cell)
    ensures SameBlocks(Rebuild(w, k).chunks, w.chunks)
    ensures forall j :: j in w.chunks && j != k ==> Rebuild(w, k).chunks[j] == w.chunks[j]
    ensures k in w.chunks ==> !Rebuild(w, k).chunks[k].dirty
  {
    if k in w.chunks {
      var c := Chunks.UpdateMesh(w.chunks[k].(dirty := true), BlockLookup(w));
      ReplaceSameBlocks(w.chunks, k, c);
      UpdateOthers(w.chunks, k, c);
    }
  }

  /** The rebuilds of the listed chunks, one after another. */
  function RebuildEach(w: World, ks: seq<Cell>): World
    decreases |ks|
  {
    if |ks| == 0 then w else RebuildEach(Rebuild(w, ks[0]), ks[1..])
  }

  /** Rebuilding never changes a block, so every rebuild in a run sees the
      world as it was at the start: each listed loaded chunk ends up rebuilt
      against the starting world, and every other chunk is untouched. */
  lemma {:induction false} RebuildEachEffect(w: World, ks: seq<Cell>)
    requires Distinct(ks)
    decreases |ks|
    ensures SameBlocks(RebuildEach(w, ks).chunks, w.chunks)
    ensures forall j :: j in w.chunks ==>
      RebuildEach(w, ks).chunks[j] ==
        if j in ks then Chunks.UpdateMesh(w.chunks[j].(dirty := true), BlockLookup(w)) else w.chunks[j]
  {
    if |ks| > 0 {
      DistinctTail(ks);
      var w1 := Rebuild(w, ks[0]);
      RebuildFacts(w, ks[0]);
      SameBlocksLookup(w1, w);
      RebuildEachEffect(w1, ks[1..]);
      forall j | j in w.chunks
        ensures RebuildEach(w, ks).chunks[j] ==
          (if j in ks then Chunks.UpdateMesh(w.chunks[j].(dirty := true), BlockLookup(w)) else w.chunks[j])
      {
        assert j in ks <==> j == ks[0] || j in ks[1..] by {
          assert ks == [ks[0]] + ks[1..];
        }
      }
    }
  }

  /** `updateMesh` of one loaded chunk against the current world, without
      touching its dirty flag first. */
  function UpdateOne(w: World, k: Cell): World
  {
    if k in w.chunks then World(w.chunks[k := Chunks.UpdateMesh(w.chunks[k], BlockLookup(w))]) else w
  }

  lemma UpdateOneFacts(w: World, k: Cell)
    ensures SameBlocks(UpdateOne(w, k).chunks, w.chunks)
    ensures forall j :: j in w.chunks && j != k ==> UpdateOne(w, k).chunks[j] == w.chunks[j]
  {
    if k in w.chunks {
      var c := Chunks.UpdateMesh(w.chunks[k], BlockLookup(w));
      ReplaceSameBlocks(w.chunks, k, c);
      UpdateOthers(w.chunks, k, c);
    }
  }

  /** The chunk `k` is loaded, generated from the height map if it was
      missing. */
  function Load(w: World, height: Chunks.HeightFn, k: Cell): (r: World)
    ensures r.chunks.Keys == w.chunks.Keys + {k}
  {
    if k in w.chunks then w else World(w.chunks[k := Chunks.NewChunk(height, k)])
  }

  /** The world right after the write and before any rebuild. */
  function Written(w: World, height: Chunks.HeightFn, p: Cell, t: Block): (r: World)
    ensures r.chunks.Keys == w.chunks.Keys + {ChunkOf(p)}
    ensures r.chunks[ChunkOf(p)].dirty
  {
    var k, l := ChunkOf(p), LocalOf(p);
    var w0 := Load(w, height, k);
    World(w0.chunks[k := Chunks.SetBlock(w0.chunks[k], l.x, l.y, l.z, t)])
  }

  /** `setBlock`: load the chunk of `p`, write the cell, rebuild the chunk,
      then rebuild the loaded chunks across the boundary faces `p` lies on. */
  function SetBlock(w: World, height: Chunks.HeightFn, p: Cell, t: Block): World
  {
    var k := ChunkOf(p);
    RebuildEach(UpdateOne(Written(w, height, p, t), k), NeighbourKeys(k, LocalOf(p)))
  }

  /** What the write does to the blocks: `p` holds `t`, and every other
      cell reads as before (or as generated, in a freshly loaded chunk). */
  lemma WrittenBlocks(w: World, height: Chunks.HeightFn, p: Cell, t: Block, q: Cell)
    ensures GetBlock(Written(w, height, p, t), p) == t
    ensures q != p ==>
      GetBlock(Written(w, height, p, t), q) ==
        if ChunkOf(q) in w.chunks then GetBlock(w, q)
        else if ChunkOf(q) == ChunkOf(p) then
          Chunks.TerrainAt(height, ChunkOf(p), LocalOf(q).x, LocalOf(q).y, LocalOf(q).z)
        else Air
  {
    var k, l, lq := ChunkOf(p), LocalOf(p), LocalOf(q);
    var w0 := Load(w, height, k);
    var r := Written(w, height, p, t);
    ReadThrough(r, p);
    ReadThrough(r, q);
    ReadThrough(w, q);
    if q != p && ChunkOf(q) == k {
      CellSplit(p, k, l);
      CellSplit(q, k, lq);
      assert Cell(lq.x, lq.y, lq.z) != Cell(l.x, l.y, l.z);
    }
  }

  /** The chunks `SetBlock` rebuilds, in order: the edited chunk first,
      then its boundary neighbours. */
  function Rebuilds(p: Cell): (ks: seq<Cell>)
    ensures |ks| > 0 && ks[0] == ChunkOf(p)
  {
    [ChunkOf(p)] + NeighbourKeys(ChunkOf(p), LocalOf(p))
  }

  /** `SetBlock` is the write followed by the rebuilds of `Rebuilds(p)` in
      that order: the edited chunk's own rebuild comes first, and every
      chunk is rebuilt at most once. */
  lemma SetBlockOrder(w: World, height: Chunks.HeightFn, p: Cell, t: Block)
    ensures SetBlock(w, height, p, t) == RebuildEach(Written(w, height, p, t), Rebuilds(p))
    ensures Distinct(Rebuilds(p))
  {
    var k, ns := ChunkOf(p), NeighbourKeys(ChunkOf(p), LocalOf(p));
    var w1 := Written(w, height, p, t);
    assert w1.chunks[k].(dirty := true) == w1.chunks[k];
    assert Rebuilds(p)[1..] == ns;
    NeighbourKeysDistinct(k, LocalOf(p));
  }

  /** After the write, `SetBlock` changes meshes and dirty flags only. */
  lemma SetBlockSame(w: World, height: Chunks.HeightFn, p: Cell, t: Block)
    ensures SameBlocks(SetBlock(w, height, p, t).chunks, Written(w, height, p, t).chunks)
  {
    SetBlockOrder(w, height, p, t);
    RebuildEachEffect(Written(w, height, p, t), Rebuilds(p));
  }

  /** What `SetBlock` does to the blocks: exactly the chunk of `p` is added
      if it was missing (neighbours are never loaded), `p` holds `t`, and
      every other cell reads as before (or as generated, in a freshly
      loaded chunk). */
  lemma SetBlockBlocks(w: World, height: Chunks.HeightFn, p: Cell, t: Block, q: Cell)
    ensures SetBlock(w, height, p, t).chunks.Keys == w.chunks.Keys + {ChunkOf(p)}
    ensures GetBlock(SetBlock(w, height, p, t), p) == t
    ensures q != p ==>
      GetBlock(SetBlock(w, height, p, t), q) ==
        if ChunkOf(q) in w.chunks then GetBlock(w, q)
        else if ChunkOf(q) == ChunkOf(p) then
          Chunks.TerrainAt(height, ChunkOf(p), LocalOf(q).x, LocalOf(q).y, LocalOf(q).z)
        else Air
  {
    SetBlockSame(w, height, p, t);
    SameBlocksLookup(SetBlock(w, height, p, t), Written(w, height, p, t));
    WrittenBlocks(w, height, p, t, q);
  }

  /** What `SetBlock` does to the meshes: the edited chunk and every loaded
      chunk across a boundary face of `p` are rebuilt (marked dirty first)
      against the final world, so each is clean and culled against the new
      block; every other chunk is left exactly as it was. */
  lemma SetBlockMeshes(w: World, height: Chunks.HeightFn, p: Cell, t: Block, j: Cell)
    ensures var r, w1 := SetBlock(w, height, p, t), Written(w, height, p, t);
      && r.chunks.Keys == w1.chunks.Keys
      && (j in w1.chunks && j in Rebuilds(p) ==>
            !r.chunks[j].dirty && r.chunks[j] == Chunks.UpdateMesh(w1.chunks[j].(dirty := true), BlockLookup(r)))
      && (j in w.chunks && j !in Rebuilds(p) ==> r.chunks[j] == w.chunks[j])
  {
    SetBlockOrder(w, height, p, t);
    var w1 := Written(w, height, p, t);
    var r := SetBlock(w, height, p, t);
    RebuildEachEffect(w1, Rebuilds(p));
    SameBlocksLookup(r, w1);
  }

  /** A neighbour's rebuild sees the block as written: no loaded chunk next
      to the edit keeps a mesh of the world before it. */
  lemma SetBlockNeighbourRebuilt(w: World, height: Chunks.HeightFn, p: Cell, t: Block, j: Cell)
    requires j in w.chunks && j in NeighbourKeys(ChunkOf(p), LocalOf(p))
    ensures var r := SetBlock(w, height, p, t);
      j in r.chunks && r.chunks[j] == Chunks.UpdateMesh(w.chunks[j].(dirty := true), BlockLookup(r))
  {
    var k := ChunkOf(p);
    NeighbourKeysDistinct(k, LocalOf(p));
    assert j != k;
    SetBlockMeshes(w, height, p, t, j);
  }

  /** Setting a block keeps every chunk stored under its own coordinate. */
  lemma SetBlockWellFormed(w: World, height: Chunks.HeightFn, p: Cell, t: Block)
    requires WellFormed(w)
    ensures WellFormed(SetBlock(w, height, p, t))
  {
    var k := ChunkOf(p);
    var w0 := Load(w, height, k);
    assert WellFormed(w0);
    var w1 := Written(w, height, p, t);
    assert WellFormed(w1);
    SetBlockSame(w, height, p, t);
    SameBlocksWellFormed(SetBlock(w, height, p, t), w1);
  }

  /** A player position, in world units. */
  datatype Position = Position(x: real, y: real, z: real)

  /** The chunk coordinate of a position along one axis. */
  function PlayerChunk(a: real): int
  {
    (a / 16.0).Floor
  }

  /** The chunks `update` keeps loaded around chunk column (px, pz): a
      square reaching `RenderDistance` chunks out in x and z, two layers
      (y = 0 and y = 1) high. */
  function Target(px: int, pz: int): set<Cell>
  {
    set x, y, z | px - RenderDistance <= x <= px + RenderDistance && 0 <= y < 2
                  && pz - RenderDistance <= z <= pz + RenderDistance :: Cell(x, y, z)
  }

  /** The key the streaming loops of `update` visit at step `t`: x
      outermost, then the layer y, with z innermost. */
  function StreamCell(px: int, pz: int, t: int): Cell
  {
    Cell(px - RenderDistance + t / 18, (t / 9) % 2, pz - RenderDistance + t % 9)
  }

  /** Step `a * 18 + b * 9 + c` of the loops visits offset (a, b, c). */
  lemma StreamIndex(a: int, b: int, c: int)
    requires 0 <= a < 9 && 0 <= b < 2 && 0 <= c < 9
    ensures var t := a * 18 + b * 9 + c; t / 18 == a && (t / 9) % 2 == b && t % 9 == c
  {
    var t := a * 18 + b * 9 + c;
    assert t / 18 == a;
    assert t / 9 == a * 2 + b;
  }

  /** The streaming loops as written: x from `px - 4` to `px + 4`, y over
      the two layers, z from `pz - 4` to `pz + 4`, one key per visit. They
      visit every target chunk once and nothing else. */
  method StreamKeys(px: int, pz: int) returns (keys: seq<Cell>)
    ensures |keys| == 162
    ensures forall t :: 0 <= t < 162 ==> keys[t] == StreamCell(px, pz, t)
    ensures forall k :: k in keys <==> k in Target(px, pz)
    ensures Distinct(keys)
  {
    keys := [];
    var x := px - RenderDistance;
    while x <= px + RenderDistance
      invariant px - 4 <= x <= px + 5
      invariant |keys| == (x - px + 4) * 18
      invariant forall t :: 0 <= t < |keys| ==> keys[t] == StreamCell(px, pz, t)
    {
      var y := 0;
      while y < 2
        invariant 0 <= y <= 2
        invariant |keys| == (x - px + 4) * 18 + y * 9
        invariant forall t :: 0 <= t < |keys| ==> keys[t] == StreamCell(px, pz, t)
      {
        var z := pz - RenderDistance;
        while z <= pz + RenderDistance
          invariant pz - 4 <= z <= pz + 5
          invariant |keys| == (x - px + 4) * 18 + y * 9 + (z - pz + 4)
          invariant forall t :: 0 <= t < |keys| ==> keys[t] == StreamCell(px, pz, t)
        {
          StreamIndex(x - px + 4, y, z - pz + 4);
          keys := keys + [Cell(x, y, z)];
          z := z + 1;
        }
        y := y + 1;
      }
      x := x + 1;
    }
    StreamOrderIsTarget(px, pz, keys);
  }

  /** A list of the 162 stream keys in loop order holds exactly the target
      chunks, each once. */
  lemma StreamOrderIsTarget(px: int, pz: int, keys: seq<Cell>)
    requires |keys| == 162
    requires forall t :: 0 <= t < 162 ==> keys[t] == StreamCell(px, pz, t)
    ensures forall k :: k in keys <==> k in Target(px, pz)
    ensures Distinct(keys)
  {
    forall k
      ensures k in keys <==> k in Target(px, pz)
    {
      if k in Target(px, pz) {
        var t := (k.x - px + 4) * 18 + k.y * 9 + (k.z - pz + 4);
        StreamIndex(k.x - px + 4, k.y, k.z - pz + 4);
        assert keys[t] == k;
      }
      if k in keys {
        var t :| 0 <= t < 162 && keys[t] == k;
        assert t / 18 < 9;
      }
    }
    forall s, t | 0 <= s < t < |keys|
      ensures keys[s] != keys[t]
    {
      assert s == (s / 18) * 18 + ((s / 9) % 2) * 9 + s % 9;
      assert t == (t / 18) * 18 + ((t / 9) % 2) * 9 + t % 9;
    }
  }

  /** A list without repeats has as many distinct elements as entries. */
  lemma {:induction false} DistinctCard(s: seq<Cell>)
    requires Distinct(s)
    ensures |set k | k in s| == |s|
  {
    if |s| > 0 {
      var init := s[..|s| - 1];
      DistinctCard(init);
      assert (set k | k in s) == (set k | k in init) + {s[|s| - 1]};
      assert s[|s| - 1] !in init;
    }
  }

  /** `update` keeps (2 * 4 + 1)^2 * 2 = 162 chunks loaded. */
  lemma TargetSize(px: int, pz: int)
    ensures |Target(px, pz)| == 162
  {
    var keys := seq(162, t => StreamCell(px, pz, t));
    StreamOrderIsTarget(px, pz, keys);
    DistinctCard(keys);
    assert (set k | k in keys) == Target(px, pz);
  }

  /** Every missing target chunk is created (generated from the height map);
      loaded chunks are kept as they are. */
  function LoadTargets(w: World, height: Chunks.HeightFn, target: set<Cell>): (r: World)
    ensures r.chunks.Keys == w.chunks.Keys + target
  {
    World(map k | k in w.chunks.Keys + target :: if k in w.chunks then w.chunks[k] else Chunks.NewChunk(height, k))
  }

  /** Every chunk outside the target is dropped. Disposing it first only
      releases a mesh that nothing can reach afterwards. */
  function Unload(w: World, target: set<Cell>): (r: World)
    ensures r.chunks.Keys == w.chunks.Keys * target
  {
    World(map k | k in w.chunks && k in target :: w.chunks[k])
  }

  /** Every loaded chunk runs `updateMesh` against the streamed world. */
  function RebuildAll(w: World): (r: World)
    ensures SameBlocks(r.chunks, w.chunks)
    ensures forall k :: k in r.chunks ==> !r.chunks[k].dirty
  {
    World(map k | k in w.chunks :: Chunks.UpdateMesh(w.chunks[k], BlockLookup(w)))
  }

  /** `update`: load the target square around the player's chunk column,
      drop every other chunk, then rebuild every dirty chunk. */
  function Update(w: World, height: Chunks.HeightFn, player: Position): World
  {
    var target := Target(PlayerChunk(player.x), PlayerChunk(player.z));
    RebuildAll(Unload(LoadTargets(w, height, target), target))
  }

  /** After `update` exactly the target chunks are loaded, each one clean;
      a chunk that was already loaded keeps its blocks (so edits survive
      while it stays in range), and a newly loaded one holds freshly
      generated terrain. */
  lemma UpdateEffect(w: World, height: Chunks.HeightFn, player: Position, k: Cell)
    ensures var r := Update(w, height, player);
      && r.chunks.Keys == Target(PlayerChunk(player.x), PlayerChunk(player.z))
      && (k in r.chunks ==> !r.chunks[k].dirty)
      && (k in r.chunks && k in w.chunks ==> r.chunks[k].blocks == w.chunks[k].blocks && r.chunks[k].pos == w.chunks[k].pos)
      && (k in r.chunks && k !in w.chunks ==> r.chunks[k].blocks == Chunks.NewChunk(height, k).blocks)
  {
    var target := Target(PlayerChunk(player.x), PlayerChunk(player.z));
    var s := Unload(LoadTargets(w, height, target), target);
    if k in s.chunks {
      assert s.chunks[k] == if k in w.chunks then w.chunks[k] else Chunks.NewChunk(height, k);
    }
  }

  /** `update` marks no chunk dirty: a chunk that was loaded and clean and
      stays in range comes out exactly as it went in, mesh included, even
      when a neighbour across one of its faces was loaded or dropped by
      the same call. Its boundary faces toward that neighbour are the ones
      built against the world as it was then. */
  lemma UpdateKeepsCleanMesh(w: World, height: Chunks.HeightFn, player: Position, k: Cell)
    requires k in w.chunks && !w.chunks[k].dirty
    requires k in Target(PlayerChunk(player.x), PlayerChunk(player.z))
    ensures k in Update(w, height, player).chunks
    ensures Update(w, height, player).chunks[k] == w.chunks[k]
  {
    var target := Target(PlayerChunk(player.x), PlayerChunk(player.z));
    var s := Unload(LoadTargets(w, height, target), target);
    assert s.chunks[k] == w.chunks[k];
  }

  /** The player's height never matters to streaming. */
  lemma UpdateIgnoresHeight(w: World, height: Chunks.HeightFn, player: Position, y: real)
    ensures Update(w, height, player) == Update(w, height, player.(y := y))
  {
  }

  /** A chunk the player stays near keeps its blocks through any number of
      updates: the target square always reaches the player's own column. */
  lemma UpdateKeepsNearby(w: World, height: Chunks.HeightFn, player: Position)
    requires Cell(PlayerChunk(player.x), 0, PlayerChunk(player.z)) in w.chunks
    ensures var k := Cell(PlayerChunk(player.x), 0, PlayerChunk(player.z));
      k in Update(w, height, player).chunks && Update(w, height, player).chunks[k].blocks == w.chunks[k].blocks
  {
    var k := Cell(PlayerChunk(player.x), 0, PlayerChunk(player.z));
    assert k in Target(PlayerChunk(player.x), PlayerChunk(player.z));
    UpdateEffect(w, height, player, k);
  }

  /** `update` keeps every chunk stored under its own coordinate. */
  lemma UpdateWellFormed(w: World, height: Chunks.HeightFn, player: Position)
    requires WellFormed(w)
    ensures WellFormed(Update(w, height, player))
  {
    var target := Target(PlayerChunk(player.x), PlayerChunk(player.z));
    var s := Unload(LoadTargets(w, height, target), target);
    assert WellFormed(s);
  }

  /** One `updateMesh` call per listed chunk, one after another. */
  function UpdateEach(w: World, ks: seq<Cell>): World
    decreases |ks|
  {
    if |ks| == 0 then w else UpdateEach(UpdateOne(w, ks[0]), ks[1..])
  }

  lemma {:induction false} UpdateEachEffect(w: World, ks: seq<Cell>)
    requires Distinct(ks)
    decreases |ks|
    ensures SameBlocks(UpdateEach(w, ks).chunks, w.chunks)
    ensures forall j :: j in w.chunks ==>
      UpdateEach(w, ks).chunks[j] ==
        if j in ks then Chunks.UpdateMesh(w.chunks[j], BlockLookup(w)) else w.chunks[j]
  {
    if |ks| > 0 {
      DistinctTail(ks);
      var w1 := UpdateOne(w, ks[0]);
      UpdateOneFacts(w, ks[0]);
      SameBlocksLookup(w1, w);
      UpdateEachEffect(w1, ks[1..]);
      forall j | j in w.chunks
        ensures UpdateEach(w, ks).chunks[j] ==
          (if j in ks then Chunks.UpdateMesh(w.chunks[j], BlockLookup(w)) else w.chunks[j])
      {
        assert j in ks <==> j == ks[0] || j in ks[1..] by {
          assert ks == [ks[0]] + ks[1..];
        }
      }
    }
  }

  /** The rebuilds at the end of `update` run one chunk at a time in the
      map's order; since rebuilding changes no block, every order of the
      loaded chunks gives the same world as `RebuildAll`. */
  lemma RebuildAllSequential(w: World, ks: seq<Cell>)
    requires Distinct(ks)
    requires forall k :: k in ks <==> k in w.chunks
    ensures UpdateEach(w, ks) == RebuildAll(w)
  {
    UpdateEachEffect(w, ks);
    assert UpdateEach(w, ks).chunks == RebuildAll(w).chunks;
  }

  /** `getChunkMeshes`: the mesh of every loaded chunk that has one. */
  function GetChunkMeshes(w: World): (m: map<Cell, Mesh>)
    ensures m.Keys <= w.chunks.Keys
    ensures forall k :: k in w.chunks ==> (k in m <==> w.chunks[k].mesh.Some?)
    ensures forall k :: k in m ==> Some(m[k]) == w.chunks[k].mesh
  {
    map k | k in w.chunks && w.chunks[k].mesh.Some? :: w.chunks[k].mesh.value
  }

  /** A dirty chunk whose rebuild finds no visible face keeps its previous,
      now released, mesh, and `getChunkMeshes` still returns it. */
  lemma StaleMeshReturned(w: World, k: Cell)
    requires k in w.chunks && w.chunks[k].dirty && w.chunks[k].mesh.Some?
    requires forall f :: !Chunks.Visible(w.chunks[k], BlockLookup(w), f)
    ensures var m := GetChunkMeshes(RebuildAll(w));
      k in m && m[k].released && m[k].faces == w.chunks[k].mesh.value.faces
  {
    assert RebuildAll(w).chunks[k] == Chunks.UpdateMesh(w.chunks[k], BlockLookup(w));
    Chunks.UpdateMeshFaces(w.chunks[k], BlockLookup(w));
  }
}
