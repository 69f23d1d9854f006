/**
 The integer bookkeeping of a chunk mesh. A mesh is kept abstractly as the
 list of emitted faces; from it follow four vertex positions and four normals
 per face and six triangle indices per face, exactly as the chunk's rebuild
 pushes them into its flat buffers. Colours are display data and are not
 kept.
 */
module MeshBuffers {
  import opened Voxels

  /** One visible cube face: the world cell it belongs to, the direction it
      faces, and the type of the block that owns it. */
  datatype Face = Face(cell: Cell, dir: Dir, block: Block)

  /** A chunk mesh. `released` records that the mesh's geometry and material
      were disposed; a released mesh can still be referenced by its chunk. */
  datatype Mesh = Mesh(
    faces: seq<Face>,
    positions: seq<Cell>,
    normals: seq<Cell>,
    indices: seq<int>,
    released: bool)

  /** The four corners of a face relative to the owning cell's minimum
      corner, in the order the rebuild emits them. */
  function CornerOffsets(d: Dir): (r: seq<Cell>)
    ensures |r| == 4
  {
    match d
    case PosX => [Cell(1, 0, 0), Cell(1, 1, 0), Cell(1, 1, 1), Cell(1, 0, 1)]
    case NegX => [Cell(0, 0, 1), Cell(0, 1, 1), Cell(0, 1, 0), Cell(0, 0, 0)]
    case PosY => [Cell(0, 1, 0), Cell(0, 1, 1), Cell(1, 1, 1), Cell(1, 1, 0)]
    case NegY => [Cell(0, 0, 1), Cell(0, 0, 0), Cell(1, 0, 0), Cell(1, 0, 1)]
    case PosZ => [Cell(1, 0, 1), Cell(1, 1, 1), Cell(0, 1, 1), Cell(0, 0, 1)]
    case NegZ => [Cell(0, 0, 0), Cell(0, 1, 0), Cell(1, 1, 0), Cell(1, 0, 0)]
  }

  function Sub(a: Cell, b: Cell): Cell
  {
    Cell(a.x - b.x, a.y - b.y, a.z - b.z)
  }

  predicate UnitCubeCorner(c: Cell)
  {
    0 <= c.x <= 1 && 0 <= c.y <= 1 && 0 <= c.z <= 1
  }

  /** Corner `c` of the unit cube lies in the cube face that direction `d`
      points out of. */
  predicate OnSide(c: Cell, d: Dir)
  {
    match d
    case PosX => c.x == 1
    case NegX => c.x == 0
    case PosY => c.y == 1
    case NegY => c.y == 0
    case PosZ => c.z == 1
    case NegZ => c.z == 0
  }

  /** Two corners of the unit cube joined by a cube edge. */
  predicate EdgeNeighbours(a: Cell, b: Cell)
  {
    (if a.x == b.x then 0 else 1) + (if a.y == b.y then 0 else 1) + (if a.z == b.z then 0 else 1) == 1
  }

  /** Four corners `c0..c3` walk once around the boundary of the cube face
      `d` points out of: all four corners of that face, each joined to the
      next by a cube edge. */
  predicate FaceLoop(c0: Cell, c1: Cell, c2: Cell, c3: Cell, d: Dir)
  {
    && UnitCubeCorner(c0) && UnitCubeCorner(c1) && UnitCubeCorner(c2) && UnitCubeCorner(c3)
    && OnSide(c0, d) && OnSide(c1, d) && OnSide(c2, d) && OnSide(c3, d)
    && c0 != c2 && c1 != c3
    && EdgeNeighbours(c0, c1) && EdgeNeighbours(c1, c2) && EdgeNeighbours(c2, c3) && EdgeNeighbours(c3, c0)
  }

  /** The corner table describes real cube faces: each direction's four
      corners go once around the face on that side of the cube. */
  lemma CornerTableIsFaceLoop(d: Dir)
    ensures var cs := CornerOffsets(d); FaceLoop(cs[0], cs[1], cs[2], cs[3], d)
  {
  }

  /** The four world-space vertex positions of a face. */
  function Corners(f: Face): (r: seq<Cell>)
    ensures |r| == 4
  {
    var cs := CornerOffsets(f.dir);
    [Add(f.cell, cs[0]), Add(f.cell, cs[1]), Add(f.cell, cs[2]), Add(f.cell, cs[3])]
  }

  /** The six indices of a quad whose first vertex is `q`: triangles
      (q, q+1, q+2) and (q, q+2, q+3). */
  function QuadIndices(q: int): seq<int>
  {
    [q, q + 1, q + 2, q, q + 2, q + 3]
  }

  /** The four vertex entries of face `q` in a per-vertex buffer. */
  function VertexGroup<T>(s: seq<T>, q: nat): seq<T>
    requires 4 * q + 4 <= |s|
  {
    s[4 * q .. 4 * q + 4]
  }

  /** The six index entries of face `q` in the index buffer. */
  function IndexGroup(s: seq<int>, q: nat): seq<int>
    requires 6 * q + 6 <= |s|
  {
    s[6 * q .. 6 * q + 6]
  }

  /** Vertex positions for a face list, four per face in face order. */
  function Positions(faces: seq<Face>): (r: seq<Cell>)
    ensures |r| == 4 * |faces|
  {
    if |faces| == 0 then [] else Positions(faces[..|faces| - 1]) + Corners(faces[|faces| - 1])
  }

  /** Vertex normals for a face list: the face direction, four times per face. */
  function Normals(faces: seq<Face>): (r: seq<Cell>)
    ensures |r| == 4 * |faces|
  {
    if |faces| == 0 then []
    else
      var n := Offset(faces[|faces| - 1].dir);
      Normals(faces[..|faces| - 1]) + [n, n, n, n]
  }

  /** The index buffer for `n` quads, six indices per quad. */
  function Indices(n: nat): (r: seq<int>)
    ensures |r| == 6 * n
  {
    if n == 0 then [] else Indices(n - 1) + QuadIndices(4 * (n - 1))
  }

  /** Positions of face `q` are its four corners. */
  lemma {:induction false} PositionsGroups(faces: seq<Face>)
    ensures forall q :: 0 <= q < |faces| ==> VertexGroup(Positions(faces), q) == Corners(faces[q])
  {
    if |faces| > 0 {
      var init := faces[..|faces| - 1];
      PositionsGroups(init);
      var r := Positions(faces);
      assert r == Positions(init) + Corners(faces[|faces| - 1]);
      forall q | 0 <= q < |faces|
        ensures VertexGroup(r, q) == Corners(faces[q])
      {
        if q < |faces| - 1 {
          assert VertexGroup(r, q) == VertexGroup(Positions(init), q);
        }
      }
    }
  }

  /** The four normals of face `q` are its direction's unit vector. */
  lemma {:induction false} NormalsGroups(faces: seq<Face>)
    ensures forall q :: 0 <= q < |faces| ==> VertexGroup(Normals(faces), q) == seq(4, k => Offset(faces[q].dir))
  {
    if |faces| > 0 {
      var init := faces[..|faces| - 1];
      NormalsGroups(init);
      var r := Normals(faces);
      var n := Offset(faces[|faces| - 1].dir);
      assert r == Normals(init) + [n, n, n, n];
      forall q | 0 <= q < |faces|
        ensures VertexGroup(r, q) == seq(4, k => Offset(faces[q].dir))
      {
        if q < |faces| - 1 {
          assert VertexGroup(r, q) == VertexGroup(Normals(init), q);
        }
      }
    }
  }

  /** Quad `q` starts at vertex `4q`, and every index names one of the `4n`
      vertices. */
  lemma {:induction false} IndicesGroups(n: nat)
    ensures forall q :: 0 <= q < n ==> IndexGroup(Indices(n), q) == QuadIndices(4 * q)
    ensures forall i :: 0 <= i < 6 * n ==> 0 <= Indices(n)[i] < 4 * n
  {
    if n > 0 {
      IndicesGroups(n - 1);
      var r := Indices(n);
      assert r == Indices(n - 1) + QuadIndices(4 * (n - 1));
      forall q | 0 <= q < n
        ensures IndexGroup(r, q) == QuadIndices(4 * q)
      {
        if q < n - 1 {
          assert IndexGroup(r, q) == IndexGroup(Indices(n - 1), q);
        }
      }
      forall i | 0 <= i < 6 * n
        ensures 0 <= r[i] < 4 * n
      {
        if i < 6 * (n - 1) {
          assert r[i] == Indices(n - 1)[i];
        }
      }
    }
  }

  /** A fresh (not released) mesh built from a face list. */
  function MeshOf(faces: seq<Face>): (m: Mesh)
    ensures m.faces == faces && !m.released
  {
    Mesh(faces, Positions(faces), Normals(faces), Indices(|faces|), false)
  }

  /** The buffers of a mesh follow its face list: four positions and four
      normals per face, six indices per face, face `q` owning vertices
      4q..4q+3 (its corners, each with the face normal) and indices
      6q..6q+5 (two triangles over those vertices), and no index naming a
      vertex that does not exist. */
  lemma MeshOfLayout(faces: seq<Face>)
    ensures var m := MeshOf(faces);
      && |m.positions| == |m.normals| == 4 * |faces|
      && |m.indices| == 6 * |faces|
      && (forall i :: 0 <= i < |m.indices| ==> 0 <= m.indices[i] < |m.positions|)
      && (forall q :: 0 <= q < |faces| ==> IndexGroup(m.indices, q) == QuadIndices(4 * q))
      && (forall q :: 0 <= q < |faces| ==> VertexGroup(m.positions, q) == Corners(faces[q]))
      && (forall q :: 0 <= q < |faces| ==> VertexGroup(m.normals, q) == seq(4, k => Offset(faces[q].dir)))
  {
    PositionsGroups(faces);
    NormalsGroups(faces);
    IndicesGroups(|faces|);
  }

  /** Appending face `n` appends its four corners to the positions. */
  lemma PositionsStep(faces: seq<Face>, n: nat)
    requires n < |faces|
    ensures Positions(faces[..n + 1]) == Positions(faces[..n]) + Corners(faces[n])
  {
    assert faces[..n + 1][..n] == faces[..n];
  }

  /** Appending face `n` appends four copies of its normal to the normals. */
  lemma NormalsStep(faces: seq<Face>, n: nat)
    requires n < |faces|
    ensures var d := Offset(faces[n].dir); Normals(faces[..n + 1]) == Normals(faces[..n]) + [d, d, d, d]
  {
    assert faces[..n + 1][..n] == faces[..n];
  }

  /** Quad `n` adds six indices starting at vertex `4n`. */
  lemma IndicesStep(n: nat)
    ensures Indices(n + 1) == Indices(n) + [4 * n, 4 * n + 1, 4 * n + 2, 4 * n, 4 * n + 2, 4 * n + 3]
  {
  }

  /** The rebuild's emission loop as written: for each face push its four
      corners and normals, then six indices offset by the running vertex
      count, then advance the count by four. It produces the buffers of
      `MeshOf`. */
  method EmitBuffers(faces: seq<Face>) returns (positions: seq<Cell>, normals: seq<Cell>, indices: seq<int>)
    ensures positions == Positions(faces)
    ensures normals == Normals(faces)
    ensures indices == Indices(|faces|)
  {
    positions, normals, indices := [], [], [];
    var vertexCount := 0;
    var f := 0;
    while f < |faces|
      invariant 0 <= f <= |faces|
      invariant vertexCount == 4 * f
      invariant positions == Positions(faces[..f])
      invariant normals == Normals(faces[..f])
      invariant indices == Indices(f)
    {
      var face := faces[f];
      var n := Offset(face.dir);
      PositionsStep(faces, f);
      NormalsStep(faces, f);
      IndicesStep(f);
      positions := positions + Corners(face);
      normals := normals + [n, n, n, n];
      indices := indices + [vertexCount, vertexCount + 1, vertexCount + 2,
                            vertexCount, vertexCount + 2, vertexCount + 3];
      vertexCount := vertexCount + 4;
      f := f + 1;
    }
    assert faces[..|faces|] == faces;
  }
}
