/**
 The integer skeleton of the terrain noise generator: the shuffled
 permutation table, its duplication into 512 entries, the lattice index
 arithmetic of the 2D and 3D lookups and the gradient selection by hash.
 The interpolated floating-point noise values are not modelled; the lattice
 functions take the real inputs only to floor them.
 */
module Noise {
  import opened Voxels

  /** The identity table 0, 1, ..., 255 the shuffle starts from. */
  function Identity(): (s: seq<int>)
    ensures |s| == 256
  {
    seq(256, i => i)
  }

  /** `p` holds every value 0..255 exactly once. */
  predicate IsPermutation(p: seq<int>)
  {
    && |p| == 256
    && (forall i :: 0 <= i < |p| ==> 0 <= p[i] < 256)
    && (forall i, j :: 0 <= i < j < |p| ==> p[i] != p[j])
  }

  /** A generator's tables: the permutation `p` and its doubled copy `p2`,
      which the lattice lookups index without wrapping. */
  datatype NoiseTable = NoiseTable(p: seq<int>, p2: seq<int>)

  /** The shape the lookups rely on: 256 byte entries (the tables are byte
      arrays) and the doubled copy. Seeding also makes `p` a permutation,
      but no lookup depends on that. */
  predicate Valid(t: NoiseTable)
  {
    && |t.p| == 256
    && (forall i :: 0 <= i < |t.p| ==> 0 <= t.p[i] < 256)
    && t.p2 == t.p + t.p
  }

  /** The low eight bits of an integer, `n & 255`. In two's complement the
      mask keeps the residue modulo 256, also for negative `n`. */
  function Low8(n: int): (r: int)
    ensures 0 <= r < 256
    ensures (n - r) % 256 == 0
  {
    n % 256
  }

  /** The low four bits, `n & 15`. */
  function Low4(n: int): (r: int)
    ensures 0 <= r < 16
    ensures (n - r) % 16 == 0
  {
    n % 16
  }

  /** The swap partner chosen at step `i` of the shuffle from a random
      number `r` in [0, 1): the floor of `r * (i + 1)`. */
  function Choice(r: real, i: nat): (j: int)
    requires 0.0 <= r < 1.0
    ensures 0 <= j <= i
  {
    var n := (i + 1) as real;
    assert r * n < n by { assert (1.0 - r) * n > 0.0; }
    (r * n).Floor
  }

  /** Each value below 256 occurs once in the identity table. */
  lemma IdentityCount(v: int)
    requires 0 <= v < 256
    ensures multiset(Identity())[v] == 1
  {
    var id := Identity();
    assert id == id[..v] + [v] + id[v + 1..];
    assert v !in id[..v] && v !in id[v + 1..];
  }

  /** A value at two positions of a sequence occurs at least twice. */
  lemma RepeatedCount(p: seq<int>, i: int, j: int)
    requires 0 <= i < j < |p| && p[i] == p[j]
    ensures multiset(p)[p[i]] >= 2
  {
    assert p == p[..j] + p[j..];
    assert p[i] in p[..j] && p[j] in p[j..];
  }

  /** A multiset equal to that of the identity table means a permutation. */
  lemma PermutationOfIdentity(p: seq<int>)
    requires multiset(p) == multiset(Identity())
    ensures IsPermutation(p)
  {
    var id := Identity();
    assert |p| == |multiset(p)| == |multiset(id)| == 256;
    forall i | 0 <= i < |p|
      ensures 0 <= p[i] < 256
    {
      assert p[i] in multiset(p);
      assert p[i] in id;
    }
    forall i, j | 0 <= i < j < |p|
      ensures p[i] != p[j]
    {
      IdentityCount(p[i]);
      if p[i] == p[j] {
        RepeatedCount(p, i, j);
      }
    }
  }

  /** The doubled table is the table written out twice. */
  lemma DoubledIsTwice(p: seq<int>, p2: seq<int>)
    requires |p| == 256 && |p2| == 512
    requires forall i :: 0 <= i < 512 ==> p2[i] == p[Low8(i)]
    ensures p2 == p + p
  {
    forall i | 0 <= i < 512
      ensures p2[i] == (p + p)[i]
    {
      if i >= 256 {
        assert Low8(i) == i - 256;
      }
    }
  }

  /** Seeds a generator. Starting from the identity table, step `i` (from
      255 down to 1) swaps entry `i` with entry `Choice(r, i)`, where `r` is
      the next random number; `randoms[k]` is the number drawn at step
      `255 - k`. Then every index `i < 512` of the doubled table receives
      `p[i & 255]`. Whatever the random numbers, the result is a
      permutation of 0..255 written out twice. */
  method Seed(randoms: seq<real>) returns (t: NoiseTable)
    requires |randoms| == 255
    requires forall k :: 0 <= k < |randoms| ==> 0.0 <= randoms[k] < 1.0
    ensures Valid(t)
    ensures IsPermutation(t.p)
    ensures t.p2 == t.p + t.p
  {
    var p := Identity();
    var i := 255;
    while i > 0
      invariant 0 <= i <= 255
      invariant |p| == 256
      invariant multiset(p) == multiset(Identity())
    {
      var j := Choice(randoms[255 - i], i);
      p := p[i := p[j]][j := p[i]];
      i := i - 1;
    }
    PermutationOfIdentity(p);
    var p2 := [];
    var k := 0;
    while k < 512
      invariant 0 <= k <= 512 && |p2| == k
      invariant forall m :: 0 <= m < k ==> p2[m] == p[Low8(m)]
    {
      p2 := p2 + [p[Low8(k)]];
      k := k + 1;
    }
    DoubledIsTwice(p, p2);
    t := NoiseTable(p, p2);
  }

  /** The permutation read with wrap-around: `p[i & 255]`. */
  function Perm(t: NoiseTable, i: int): (v: int)
    requires Valid(t)
    ensures 0 <= v < 256
  {
    t.p[Low8(i)]
  }

  /** A read of the doubled table. */
  function P2(t: NoiseTable, i: int): (v: int)
    requires Valid(t) && 0 <= i < 512
    ensures 0 <= v < 256
  {
    t.p2[i]
  }

  /** Every entry of the doubled table is the permutation entry its index
      wraps to. */
  lemma P2IsPerm(t: NoiseTable, i: int)
    requires Valid(t) && 0 <= i < 512
    ensures P2(t, i) == Perm(t, i)
  {
    assert i >= 256 ==> Low8(i) == i - 256;
  }

  /** Masking before or after an addition gives the same low eight bits. */
  lemma Low8Add(a: int, b: int)
    ensures Low8(Low8(a) + b) == Low8(a + b)
  {
  }

  /** The hash of 2D lattice point (i, j): permute i, add j, permute, and
      permute once more. */
  function LatticeHash2(t: NoiseTable, i: int, j: int): int
    requires Valid(t)
  {
    Perm(t, Perm(t, Perm(t, i) + j))
  }

  /** The hash of 3D lattice point (i, j, k): permute i, add j, permute,
      add k, permute. */
  function LatticeHash3(t: NoiseTable, i: int, j: int, k: int): int
    requires Valid(t)
  {
    Perm(t, Perm(t, Perm(t, i) + j) + k)
  }

  /** The intermediate indices of the 2D lookup: the cell's wrapped corner
      `x`, `y`, then `a`/`b` (row bases for columns x and x + 1) and the
      four corner entries `aa`, `ab`, `ba`, `bb`. */
  datatype Indices2 = Indices2(x: int, y: int, a: int, b: int, aa: int, ab: int, ba: int, bb: int)

  /** The index arithmetic of the 2D lookup for the cell whose lower
      corner is the lattice point (i, j). All indices into the doubled
      table stay below 512, including the `+ 1` lookups. */
  function Lookup2(t: NoiseTable, i: int, j: int): (r: Indices2)
    requires Valid(t)
    ensures 0 <= r.x < 256 && 0 <= r.y < 256
    ensures 0 <= r.a <= 510 && 0 <= r.b <= 510
    ensures 0 <= r.aa < 256 && 0 <= r.ab < 256 && 0 <= r.ba < 256 && 0 <= r.bb < 256
  {
    var cx := Low8(i);
    var cy := Low8(j);
    var a := P2(t, cx) + cy;
    var b := P2(t, cx + 1) + cy;
    Indices2(cx, cy, a, b, P2(t, a), P2(t, a + 1), P2(t, b), P2(t, b + 1))
  }

  /** The lattice cell a noise input falls in: `Math.floor` of each
      coordinate. */
  function CellCoord(x: real): (i: int)
    ensures i as real <= x < i as real + 1.0
  {
    x.Floor
  }

  /** Shifting an input by a whole number of units shifts its cell by the
      same amount. */
  lemma CellCoordShift(x: real, n: int)
    ensures CellCoord(x + n as real) == CellCoord(x) + n
  {
  }

  /** The noise inputs repeat every 256 units along each axis: shifting a
      real input by 256 moves it to a lattice cell whose index arithmetic,
      after `Math.floor` and `& 255`, is the same, in 2D and in 3D. */
  lemma {:induction false} InputPeriod(t: NoiseTable, x: real, y: real, z: real)
    requires Valid(t)
    ensures Lookup2(t, CellCoord(x + 256.0), CellCoord(y)) == Lookup2(t, CellCoord(x), CellCoord(y))
    ensures Lookup2(t, CellCoord(x), CellCoord(y + 256.0)) == Lookup2(t, CellCoord(x), CellCoord(y))
    ensures Lookup3(t, CellCoord(x + 256.0), CellCoord(y), CellCoord(z)) == Lookup3(t, CellCoord(x), CellCoord(y), CellCoord(z))
    ensures Lookup3(t, CellCoord(x), CellCoord(y + 256.0), CellCoord(z)) == Lookup3(t, CellCoord(x), CellCoord(y), CellCoord(z))
    ensures Lookup3(t, CellCoord(x), CellCoord(y), CellCoord(z + 256.0)) == Lookup3(t, CellCoord(x), CellCoord(y), CellCoord(z))
  {
    CellCoordShift(x, 256);
    CellCoordShift(y, 256);
    CellCoordShift(z, 256);
    Low8Period(CellCoord(x));
    Low8Period(CellCoord(y));
    Low8Period(CellCoord(z));
  }

  /** `& 255` forgets multiples of 256. */
  lemma Low8Period(n: int)
    ensures Low8(n + 256) == Low8(n)
  {
  }

  /** The hash the 2D lookup reads for corner (di, dj) of the cell with
      lower corner (i, j): the row base `p2[(i & 255) + di] + (j & 255)`,
      the entry `dj` past it, and the table entry there. */
  function CornerHash2(t: NoiseTable, i: int, j: int, di: int, dj: int): (h: int)
    requires Valid(t) && 0 <= di <= 1 && 0 <= dj <= 1
    ensures 0 <= h < 256
  {
    P2(t, P2(t, P2(t, Low8(i) + di) + Low8(j) + dj))
  }

  /** The gradient hashes of the four corners of the 2D cell with lower
      corner (i, j) (the floors of the inputs), in the order the
      interpolation reads them: (0,0), (1,0), (0,1), (1,1) relative to the
      lower corner. */
  function Hashes2(t: NoiseTable, i: int, j: int): (h: seq<int>)
    requires Valid(t)
    ensures |h| == 4
  {
    [CornerHash2(t, i, j, 0, 0), CornerHash2(t, i, j, 1, 0),
     CornerHash2(t, i, j, 0, 1), CornerHash2(t, i, j, 1, 1)]
  }

  /** The corner hashes are the table entries at the indices `aa`, `ba`,
      `ab`, `bb` of the lookup's index arithmetic. */
  lemma Hashes2FromIndices(t: NoiseTable, i: int, j: int)
    requires Valid(t)
    ensures var r := Lookup2(t, i, j);
      Hashes2(t, i, j) == [P2(t, r.aa), P2(t, r.ba), P2(t, r.ab), P2(t, r.bb)]
  {
  }

  /** Masking before or after adding a small offset reads the same
      permutation entry. */
  lemma PermLow8(t: NoiseTable, a: int, d: int)
    requires Valid(t) && 0 <= Low8(a) + d < 512
    ensures P2(t, Low8(a) + d) == Perm(t, a + d)
  {
    P2IsPerm(t, Low8(a) + d);
    Low8Add(a, d);
  }

  /** The hash read for each corner is the lattice hash of that corner's
      own integer coordinates. */
  lemma CornerHash2IsLattice(t: NoiseTable, i: int, j: int, di: int, dj: int)
    requires Valid(t) && 0 <= di <= 1 && 0 <= dj <= 1
    ensures CornerHash2(t, i, j, di, dj) == LatticeHash2(t, i + di, j + dj)
  {
    var q := P2(t, Low8(i) + di);
    PermLow8(t, i, di);
    var s := P2(t, q + Low8(j) + dj);
    PermLow8(t, j, q + dj);
    P2IsPerm(t, s);
  }

  /** Each corner's hash is the lattice hash of that corner's own integer
      coordinates. */
  lemma Hashes2AreLatticeHashes(t: NoiseTable, i: int, j: int)
    requires Valid(t)
    ensures var h := Hashes2(t, i, j);
      && h[0] == LatticeHash2(t, i, j)
      && h[1] == LatticeHash2(t, i + 1, j)
      && h[2] == LatticeHash2(t, i, j + 1)
      && h[3] == LatticeHash2(t, i + 1, j + 1)
  {
    CornerHash2IsLattice(t, i, j, 0, 0);
    CornerHash2IsLattice(t, i, j, 1, 0);
    CornerHash2IsLattice(t, i, j, 0, 1);
    CornerHash2IsLattice(t, i, j, 1, 1);
  }

  /** Lattice hashes repeat every 256 lattice points along each axis. */
  lemma LatticeHashPeriodic(t: NoiseTable, i: int, j: int, k: int)
    requires Valid(t)
    ensures LatticeHash2(t, i + 256, j) == LatticeHash2(t, i, j)
    ensures LatticeHash2(t, i, j + 256) == LatticeHash2(t, i, j)
    ensures LatticeHash3(t, i + 256, j, k) == LatticeHash3(t, i, j, k)
    ensures LatticeHash3(t, i, j + 256, k) == LatticeHash3(t, i, j, k)
    ensures LatticeHash3(t, i, j, k + 256) == LatticeHash3(t, i, j, k)
  {
    Low8Add(i, 256);
    Low8Add(Perm(t, i) + j, 256);
    Low8Add(Perm(t, Perm(t, i) + j) + k, 256);
  }

  /** Neighbouring cells agree on the corners they share, so the gradient
      at a lattice point does not depend on which cell the lookup came
      from; and the pattern repeats every 256 units along each axis. */
  lemma Hashes2Shared(t: NoiseTable, i: int, j: int)
    requires Valid(t)
    ensures Hashes2(t, i, j)[1] == Hashes2(t, i + 1, j)[0]
    ensures Hashes2(t, i, j)[3] == Hashes2(t, i + 1, j)[2]
    ensures Hashes2(t, i, j)[2] == Hashes2(t, i, j + 1)[0]
    ensures Hashes2(t, i, j)[3] == Hashes2(t, i, j + 1)[1]
    ensures Hashes2(t, i + 256, j) == Hashes2(t, i, j)
    ensures Hashes2(t, i, j + 256) == Hashes2(t, i, j)
  {
    Hashes2AreLatticeHashes(t, i, j);
    Hashes2AreLatticeHashes(t, i + 1, j);
    Hashes2AreLatticeHashes(t, i, j + 1);
    Hashes2AreLatticeHashes(t, i + 256, j);
    Hashes2AreLatticeHashes(t, i, j + 256);
    LatticeHashPeriodic(t, i, j, 0);
    LatticeHashPeriodic(t, i + 1, j, 0);
    LatticeHashPeriodic(t, i, j + 1, 0);
    LatticeHashPeriodic(t, i + 1, j + 1, 0);
  }

  /** The intermediate indices of the 3D lookup. */
  datatype Indices3 = Indices3(x: int, y: int, z: int, a: int, b: int, aa: int, ab: int, ba: int, bb: int)

  /** The index arithmetic of the 3D lookup for the cell whose lower
      corner is the lattice point (i, j, k). The corner entries `aa`..`bb`
      stay at most 510, so the `+ 1` lookups for the upper z layer stay
      inside the doubled table. */
  function Lookup3(t: NoiseTable, i: int, j: int, k: int): (r: Indices3)
    requires Valid(t)
    ensures 0 <= r.x < 256 && 0 <= r.y < 256 && 0 <= r.z < 256
    ensures 0 <= r.a <= 510 && 0 <= r.b <= 510
    ensures 0 <= r.aa <= 510 && 0 <= r.ab <= 510 && 0 <= r.ba <= 510 && 0 <= r.bb <= 510
  {
    var cx := Low8(i);
    var cy := Low8(j);
    var cz := Low8(k);
    var a := P2(t, cx) + cy;
    var b := P2(t, cx + 1) + cy;
    Indices3(cx, cy, cz, a, b, P2(t, a) + cz, P2(t, a + 1) + cz, P2(t, b) + cz, P2(t, b + 1) + cz)
  }

  /** The hash the 3D lookup reads for corner (di, dj, dk) of the cell with
      lower corner (i, j, k): the row base `p2[(i & 255) + di] + (j & 255)`,
      the entry `dj` past it plus `k & 255`, and the table entry `dk` past
      that. */
  function CornerHash3(t: NoiseTable, i: int, j: int, k: int, di: int, dj: int, dk: int): (h: int)
    requires Valid(t) && 0 <= di <= 1 && 0 <= dj <= 1 && 0 <= dk <= 1
    ensures 0 <= h < 256
  {
    P2(t, P2(t, P2(t, Low8(i) + di) + Low8(j) + dj) + Low8(k) + dk)
  }

  /** The gradient hashes of the eight corners of the 3D cell with lower
      corner (i, j, k), in the order the interpolation reads them:
      (0,0,0), (1,0,0), (0,1,0), (1,1,0), then the same four with z + 1. */
  function Hashes3(t: NoiseTable, i: int, j: int, k: int): (h: seq<int>)
    requires Valid(t)
    ensures |h| == 8
  {
    [CornerHash3(t, i, j, k, 0, 0, 0), CornerHash3(t, i, j, k, 1, 0, 0),
     CornerHash3(t, i, j, k, 0, 1, 0), CornerHash3(t, i, j, k, 1, 1, 0),
     CornerHash3(t, i, j, k, 0, 0, 1), CornerHash3(t, i, j, k, 1, 0, 1),
     CornerHash3(t, i, j, k, 0, 1, 1), CornerHash3(t, i, j, k, 1, 1, 1)]
  }

  /** The corner hashes are the table entries at `aa`, `ba`, `ab`, `bb` and
      one past each, as the lookup's index arithmetic reads them. */
  lemma Hashes3FromIndices(t: NoiseTable, i: int, j: int, k: int)
    requires Valid(t)
    ensures var r := Lookup3(t, i, j, k);
      Hashes3(t, i, j, k) ==
        [P2(t, r.aa), P2(t, r.ba), P2(t, r.ab), P2(t, r.bb),
         P2(t, r.aa + 1), P2(t, r.ba + 1), P2(t, r.ab + 1), P2(t, r.bb + 1)]
  {
  }

  /** The hash read for each 3D corner is the lattice hash of that corner's
      own integer coordinates. */
  lemma CornerHash3IsLattice(t: NoiseTable, i: int, j: int, k: int, di: int, dj: int, dk: int)
    requires Valid(t) && 0 <= di <= 1 && 0 <= dj <= 1 && 0 <= dk <= 1
    ensures CornerHash3(t, i, j, k, di, dj, dk) == LatticeHash3(t, i + di, j + dj, k + dk)
  {
    var q := P2(t, Low8(i) + di);
    PermLow8(t, i, di);
    var s := P2(t, q + Low8(j) + dj);
    PermLow8(t, j, q + dj);
    PermLow8(t, k, s + dk);
  }

  /** Each of the eight corner hashes is the lattice hash of that corner's
      own integer coordinates. */
  lemma Hashes3AreLatticeHashes(t: NoiseTable, i: int, j: int, k: int)
    requires Valid(t)
    ensures var h := Hashes3(t, i, j, k);
      && h[0] == LatticeHash3(t, i, j, k)
      && h[1] == LatticeHash3(t, i + 1, j, k)
      && h[2] == LatticeHash3(t, i, j + 1, k)
      && h[3] == LatticeHash3(t, i + 1, j + 1, k)
      && h[4] == LatticeHash3(t, i, j, k + 1)
      && h[5] == LatticeHash3(t, i + 1, j, k + 1)
      && h[6] == LatticeHash3(t, i, j + 1, k + 1)
      && h[7] == LatticeHash3(t, i + 1, j + 1, k + 1)
  {
    CornerHash3IsLattice(t, i, j, k, 0, 0, 0);
    CornerHash3IsLattice(t, i, j, k, 1, 0, 0);
    CornerHash3IsLattice(t, i, j, k, 0, 1, 0);
    CornerHash3IsLattice(t, i, j, k, 1, 1, 0);
    CornerHash3IsLattice(t, i, j, k, 0, 0, 1);
    CornerHash3IsLattice(t, i, j, k, 1, 0, 1);
    CornerHash3IsLattice(t, i, j, k, 0, 1, 1);
    CornerHash3IsLattice(t, i, j, k, 1, 1, 1);
  }

  /** Neighbouring 3D cells agree on shared corners. */
  lemma Hashes3Shared(t: NoiseTable, i: int, j: int, k: int)
    requires Valid(t)
    ensures Hashes3(t, i, j, k)[1] == Hashes3(t, i + 1, j, k)[0]
    ensures Hashes3(t, i, j, k)[2] == Hashes3(t, i, j + 1, k)[0]
    ensures Hashes3(t, i, j, k)[4] == Hashes3(t, i, j, k + 1)[0]
    ensures Hashes3(t, i, j, k)[7] == Hashes3(t, i + 1, j + 1, k + 1)[0]
  {
    Hashes3AreLatticeHashes(t, i, j, k);
    Hashes3AreLatticeHashes(t, i + 1, j, k);
    Hashes3AreLatticeHashes(t, i, j + 1, k);
    Hashes3AreLatticeHashes(t, i, j, k + 1);
    Hashes3AreLatticeHashes(t, i + 1, j + 1, k + 1);
  }

  /** The gradient of `grad(hash, x, y, z)` with `h = hash & 15`: the first
      term is x when h < 8 and y otherwise; the second is y when h < 4, x
      when h is 12 or 14, and z otherwise; bit 0 of h negates the first term
      and bit 1 the second. */
  function Grad(hash: int, x: real, y: real, z: real): (r: real)
  {
    var h := Low4(hash);
    var u := if h < 8 then x else y;
    var v := if h < 4 then y else if h == 12 || h == 14 then x else z;
    (if h % 2 == 0 then u else -u) + (if (h / 2) % 2 == 0 then v else -v)
  }

  /** The sixteen gradients of improved Perlin noise, one per value of
      `hash & 15`: the twelve cube edge directions followed by four of
      them again. */
  function GradVector(h: int): Cell
    requires 0 <= h < 16
  {
    [Cell(1, 1, 0), Cell(-1, 1, 0), Cell(1, -1, 0), Cell(-1, -1, 0),
     Cell(1, 0, 1), Cell(-1, 0, 1), Cell(1, 0, -1), Cell(-1, 0, -1),
     Cell(0, 1, 1), Cell(0, -1, 1), Cell(0, 1, -1), Cell(0, -1, -1),
     Cell(1, 1, 0), Cell(0, -1, 1), Cell(-1, 1, 0), Cell(0, -1, -1)][h]
  }

  function Dot(g: Cell, x: real, y: real, z: real): real
  {
    g.x as real * x + g.y as real * y + g.z as real * z
  }

  /** The selection in `Grad` is the dot product with the gradient table
      entry of `hash & 15`. */
  lemma GradIsDot(hash: int, x: real, y: real, z: real)
    ensures Grad(hash, x, y, z) == Dot(GradVector(Low4(hash)), x, y, z)
  {
    var h := Low4(hash);
    assert h in {0, 1, 2, 3, 4, 5, 6, 7, 8, 9, 10, 11, 12, 13, 14, 15};
  }

  /** Points from the centre of a cube to the middle of one of its edges:
      two components are ±1 and the third is 0. */
  predicate IsEdgeDirection(g: Cell)
  {
    && -1 <= g.x <= 1 && -1 <= g.y <= 1 && -1 <= g.z <= 1
    && (if g.x == 0 then 1 else 0) + (if g.y == 0 then 1 else 0) + (if g.z == 0 then 1 else 0) == 1
  }

  /** Every gradient is an edge direction, the first twelve are distinct,
      and together they are all twelve edge directions. */
  lemma GradTableIsEdges(g: Cell)
    ensures forall h :: 0 <= h < 16 ==> IsEdgeDirection(GradVector(h))
    ensures forall h, h' :: 0 <= h < h' < 12 ==> GradVector(h) != GradVector(h')
    ensures IsEdgeDirection(g) <==> exists h :: 0 <= h < 12 && GradVector(h) == g
  {
    if IsEdgeDirection(g) {
      var h :=
        if g.z == 0 then (if g.x == 1 then 0 else 1) + (if g.y == 1 then 0 else 2)
        else if g.y == 0 then 4 + (if g.x == 1 then 0 else 1) + (if g.z == 1 then 0 else 2)
        else 8 + (if g.y == 1 then 0 else 1) + (if g.z == 1 then 0 else 2);
      assert GradVector(h) == g;
    }
  }
}
