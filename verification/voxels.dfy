/**
 This module holds the vocabulary shared by the whole voxel world engine:
 block types with the byte code each is stored as, integer cells, and the
 six axis directions a cube face can point in.
 */
module Voxels {

  /** The usual Some/None wrapper, used where the game keeps `null`. */
  datatype Option<T> = None | Some(value: T)

  /** The block types of the game. `Air` is the empty sentinel; every other
      type is solid and opaque for face culling. */
  datatype Block = Air | Grass | Dirt | Stone | Wood | Planks | CraftingTable

  /** The small integer a block type is known by (`BLOCK_TYPES`), which is
      also the byte a chunk stores for it. */
  function Code(b: Block): (r: nat)
    ensures r < 7
    ensures r == 0 <==> b == Air
  {
    match b
    case Air => 0
    case Grass => 1
    case Dirt => 2
    case Stone => 3
    case Wood => 4
    case Planks => 5
    case CraftingTable => 6
  }

  /** The block type a byte stands for, if any. */
  function FromCode(n: int): (r: Option<Block>)
    ensures r.Some? <==> 0 <= n < 7
  {
    if n == 0 then Some(Air)
    else if n == 1 then Some(Grass)
    else if n == 2 then Some(Dirt)
    else if n == 3 then Some(Stone)
    else if n == 4 then Some(Wood)
    else if n == 5 then Some(Planks)
    else if n == 6 then Some(CraftingTable)
    else None
  }

  /** Storing a block as its code loses nothing: the codes are a bijection
      between the seven block types and 0..6. */
  lemma CodeBijection(b: Block, n: int)
    ensures FromCode(Code(b)) == Some(b)
    ensures FromCode(n) == Some(b) <==> (0 <= n < 7 && Code(b) == n)
  {
  }

  /** A block position, either in world coordinates or local to a chunk. */
  datatype Cell = Cell(x: int, y: int, z: int)

  /** The six axis directions, in the order a chunk tests its neighbours. */
  datatype Dir = PosX | NegX | PosY | NegY | PosZ | NegZ

  /** The unit vector of a direction (also the face normal). */
  function Offset(d: Dir): (r: Cell)
    ensures Abs(r.x) + Abs(r.y) + Abs(r.z) == 1
  {
    match d
    case PosX => Cell(1, 0, 0)
    case NegX => Cell(-1, 0, 0)
    case PosY => Cell(0, 1, 0)
    case NegY => Cell(0, -1, 0)
    case PosZ => Cell(0, 0, 1)
    case NegZ => Cell(0, 0, -1)
  }

  function Abs(n: int): nat
  {
    if n < 0 then -n else n
  }

  function Add(a: Cell, b: Cell): Cell
  {
    Cell(a.x + b.x, a.y + b.y, a.z + b.z)
  }

  /** The cell across the face of `c` in direction `d`. */
  function Step(c: Cell, d: Dir): Cell
  {
    Add(c, Offset(d))
  }

  /** The neighbour test order of the mesh builder: +x, -x, +y, -y, +z, -z. */
  const Dirs: seq<Dir> := [PosX, NegX, PosY, NegY, PosZ, NegZ]

  /** The position of a direction in the test order. */
  function DirIndex(d: Dir): (k: nat)
    ensures k < 6 && Dirs[k] == d
  {
    match d
    case PosX => 0
    case NegX => 1
    case PosY => 2
    case NegY => 3
    case PosZ => 4
    case NegZ => 5
  }

  /** Each direction appears exactly once in the test order. */
  lemma DirsComplete(k: int)
    requires 0 <= k < 6
    ensures DirIndex(Dirs[k]) == k
  {
  }

  /** No element of the list is repeated. */
  predicate Distinct<T(==)>(s: seq<T>)
  {
    forall i, j :: 0 <= i < j < |s| ==> s[i] != s[j]
  }

  /** A repeat-free list splits into a head that does not recur and a
      repeat-free tail. */
  lemma DistinctTail<T>(s: seq<T>)
    requires Distinct(s) && |s| > 0
    ensures s[0] !in s[1..] && Distinct(s[1..])
  {
    forall i, j | 0 <= i < j < |s[1..]|
      ensures s[1..][i] != s[1..][j]
    {
      assert s[1..][i] == s[i + 1] && s[1..][j] == s[j + 1];
    }
  }

  /** Concatenating two repeat-free lists with no common element gives a
      repeat-free list. */
  lemma DistinctConcat<T>(a: seq<T>, b: seq<T>)
    requires Distinct(a) && Distinct(b)
    requires forall g :: g in a ==> g !in b
    ensures Distinct(a + b)
  {
    var fs := a + b;
    forall i, j | 0 <= i < j < |fs|
      ensures fs[i] != fs[j]
    {
      if j < |a| {
        assert fs[i] == a[i] && fs[j] == a[j];
      } else if i < |a| {
        assert fs[i] == a[i] && fs[j] == b[j - |a|];
        assert b[j - |a|] in b;
      } else {
        assert fs[i] == b[i - |a|] && fs[j] == b[j - |a|];
      }
    }
  }
}
