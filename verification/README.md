# Voxel world engine, modelled in Dafny

This project models the chunked voxel world at the heart of a browser block
game. It covers:

- chunk storage and terrain generation;
- the face-culling mesh builder;
- the world grid with lazy loading, boundary-neighbour rebuilds and streaming
  around the player;
- the integer skeleton of the noise generator;
- the inventory, the 2×2 crafting matcher, and the player's discrete block
  actions (scroll the hotbar, break, place).

Everything is written as immutable datatypes and pure functions. Where the
game runs a loop whose shape matters (chunk generation, buffer emission,
streaming, the table shuffle), a method runs the loop as written and its
contract ties it to the functional definition.

| file | module | models |
|---|---|---|
| `voxels.dfy` | `Voxels` | block types and their byte codes, cells, the six face directions |
| `mesh.dfy` | `MeshBuffers` | a mesh as a face list, and the position/normal/index buffers derived from it |
| `chunk.dfy` | `Chunks` | `src/chunk.js`: the block array, generation, edits, the rebuild and dispose |
| `keys.dfy` | `ChunkKeys` | the `"x,y,z"` chunk key string and its injectivity |
| `world.dfy` | `Worlds` | `src/world.js`: coordinate split, block access, `setBlock` with neighbour rebuilds, `update`, `getChunkMeshes` |
| `noise.dfy` | `Noise` | `src/noise.js`: seeding, the doubled table, lattice index arithmetic, gradient selection |
| `inventory.dfy` | `Inventories` | `src/inventory.js`: stacks, `addItem`, `getSelectedItem`, `removeSelectedItem` |
| `crafting.dfy` | `Crafting` | `src/crafting.js`: the recipe table and `checkRecipe` |
| `player.dfy` | `Players` | `src/player.js`: the wheel handler, `breakBlock`, `placeBlock` |

A chunk does not hold a back-reference to its world. It receives two
parameters instead: the terrain height of a column (`HeightFn`, the world's
`getHeight`) and the block at any world cell (`Lookup`, the world's
`getBlock`). The world passes its own block lookup when it rebuilds a chunk.

The chunk map is keyed by the chunk coordinate itself. `ChunkKeys` proves
that the string key the game uses parses back to the coordinate, so the two
keyings are interchangeable.

A mesh is the list of emitted faces. Each face is a world cell, a direction
and a block type. The integer buffers are derived from that list, and a
`released` flag records that the mesh's resources were disposed.

Behaviour kept as the code has it:

- **Zero-face rebuild.** The previous mesh is disposed, but the chunk's mesh
  field keeps pointing at it. So `getChunkMeshes` can return a disposed mesh
  (`StaleMeshReturned`). A chunk that never had faces has no mesh.
- **`dispose`** also leaves the field set.
- **Streaming marks no chunk dirty.** `update` rebuilds only dirty chunks.
  When it loads or drops a chunk, the clean chunks next to it keep the
  boundary faces they built against the world as it was, though their flag
  says clean (`UpdateKeepsCleanMesh`).
- **Seeding** uses `Math.random`. The seed argument is ignored, so the height
  field is not determined by a seed; the shuffle's random numbers are an
  input of `Noise.Seed`.
- **Lazy loading.** `setBlock` loads the chunk it writes to even outside the
  streamed square. That chunk stays until the next `update`, so between
  updates the loaded set can be larger than the square. Loading it marks no
  other chunk dirty: a clean loaded chunk next to it is rebuilt only when
  the edit lies on their shared face, and otherwise keeps the boundary
  faces it built while that chunk was absent and read as air
  (`SetBlockMeshes`).
- **`breakBlock` with a full inventory.** The world cell still becomes air,
  and the block is lost (`BreakBlockEffect`, `!added.ok` case).
- **`placeBlock`** does not check that the target cell is air; it overwrites
  whatever is there.
- **`checkRecipe`** does not consult the recipe table. It agrees with the
  table anyway (`CheckRecipeFollowsTable`), and the table's `shape` field is
  never used.

## Model

| member | source | states |
|---|---|---|
| Voxels.CodeBijection | src/inventory.js:1-9 | the seven block types and the codes 0..6 are in one-to-one correspondence, so a chunk's byte array loses nothing; `Air` is code 0 |
| MeshBuffers.CornerTableIsFaceLoop | src/chunk.js:108-127 | each direction's four corner offsets are the four corners of the cube face on that side, visited once around its edge |
| MeshBuffers.PositionsGroups | src/chunk.js:132-134 | the four positions pushed for face q are that face's corners in world coordinates |
| MeshBuffers.NormalsGroups | src/chunk.js:132-134 | the four normals pushed for face q are all the unit vector of its direction |
| MeshBuffers.IndicesGroups | src/chunk.js:137-141 | quad q's six indices are (4q, 4q+1, 4q+2, 4q, 4q+2, 4q+3), and every index of n quads is below 4n |
| MeshBuffers.MeshOfLayout | src/chunk.js:129-143 | with F faces there are exactly 4F positions and normals and 6F indices; face q owns vertices 4q..4q+3 and indices 6q..6q+5, and no index names a missing vertex |
| MeshBuffers.EmitBuffers | src/chunk.js:129-143 | the emission loop with its running vertex count builds exactly the buffers derived from the face list |
| Chunks.IndexBijection | src/chunk.js:46-48 | `getIndex` maps [0,16)³ into [0,4096), and `CellOfIndex` inverts it; both directions |
| Chunks.CellOfIndex | src/chunk.js:46-48 | every array position is the index of exactly one local cell, so the index map is onto |
| Chunks.IndexInjective | src/chunk.js:46-48 | two local cells share an array position only if they are equal |
| Chunks.ReadBlock | src/chunk.js:50-55 | a coordinate outside [0,16) reads `Air` whatever the array holds; an inside one reads its array entry |
| Chunks.SetBlock | src/chunk.js:57-60 | after a write inside the chunk the cell reads the new type, every other cell reads as before, the chunk is dirty, and position and mesh are unchanged |
| Chunks.TerrainLayers | src/chunk.js:30-38 | a column of height h is air from h up, grass at h-1, dirt at h-2 and h-3, and stone below; each direction of each layer |
| Chunks.GenerateAt | src/chunk.js:19-43 | generation puts each local cell's terrain block, for its own column height and world height, at that cell's index |
| Chunks.NewChunk | src/chunk.js:7-17 | a new chunk sits at its coordinate with no mesh, is dirty, and every cell holds its generated terrain block |
| Chunks.FillStep | src/chunk.js:28-41 | one write of the column's terrain block at the cursor moves the generation cursor one cell up, every other cell keeping its state |
| Chunks.FillCellStep | src/chunk.js:28-41 | a single cell stays consistent with the cursor after the write: the written cell gains its terrain block, the others read as before |
| Chunks.FillColumn | src/chunk.js:28-41 | the inner loop fills one column bottom to top with the terrain of its height and leaves every later cell air |
| Chunks.FilledAll | src/chunk.js:20-43 | once every column has been filled, the array is the generated one |
| Chunks.Construct | src/chunk.js:7-44 | the constructor and `generate` as written produce `NewChunk`, querying the height of each of the 256 columns exactly once, in x-major order |
| Chunks.ColumnQueriesDistinct | src/chunk.js:20-25 | the 256 column queries name 256 different columns |
| Chunks.VisitOrderComplete | src/chunk.js:87-89 | the rebuild's nested loops visit every local cell and nothing else |
| Chunks.VisitOrderDistinct | src/chunk.js:87-89 | no cell is visited twice |
| Chunks.DirFacesMembership | src/chunk.js:129-130 | a cell emits a face in direction d exactly when the world reports air across that face |
| Chunks.CellFacesMembership | src/chunk.js:90-106 | the faces one cell emits are exactly the visible faces of that cell; an air cell emits none |
| Chunks.BuildFacesExact | src/chunk.js:87-146 | a rebuild emits a face (cell, d, type) if and only if the cell lies in the chunk, holds that non-air type, and the world reports air at cell + d |
| Chunks.BuildFacesDistinct | src/chunk.js:87-146 | no face is emitted twice, so the face count is the number of visible (cell, direction) pairs |
| Chunks.UpdateMesh | src/chunk.js:62-159 | a clean chunk is left exactly as it is; otherwise only the mesh changes and the chunk ends clean |
| Chunks.UpdateMeshFaces | src/chunk.js:148-158 | a dirty rebuild installs a live mesh iff some face is visible, and then its faces are exactly the visible ones, each once, with derived buffers; with no visible face the slot keeps the previous mesh, released |
| Chunks.UpdateMeshIdempotent | src/chunk.js:62-159 | a second rebuild without an edit in between changes nothing |
| Chunks.Release | src/chunk.js:65-69 | disposing marks the held mesh released and keeps it in the slot; an empty slot stays empty |
| Chunks.Dispose | src/chunk.js:161-167 | disposing a chunk releases its mesh but the field still refers to it; blocks, position and flag are untouched |
| ChunkKeys.IntStringRoundTrip | src/world.js:19-21 | the decimal form of any integer parses back to that integer |
| ChunkKeys.KeyRoundTrip | src/world.js:19-21 | the key "x,y,z" of a chunk coordinate parses back to the coordinate |
| ChunkKeys.KeyInjective | src/world.js:19-21 | two chunk coordinates have the same key if and only if they are equal |
| Worlds.TruncRem | src/world.js:31-33 | the source's `%` is the remainder of division truncated toward zero: the dividend is the divisor times the truncated quotient plus the result, which has the dividend's sign and magnitude below the divisor |
| Worlds.Decompose | src/world.js:24-33 | every global coordinate equals chunk × 16 + local, with local in [0,16), for negative coordinates too |
| Worlds.DecomposeUnique | src/world.js:24-33 | a chunk origin plus any local coordinate in [0,16) splits back into that chunk and that local coordinate |
| Worlds.MinusOne | src/world.js:24-33 | coordinate -1 lies in chunk -1 at local coordinate 15 |
| Worlds.CellSplit | src/world.js:24-35 | a world cell is its chunk origin plus its local cell, and no other (chunk, in-chunk cell) pair gives it |
| Worlds.GetBlock | src/world.js:23-36 | a cell whose chunk is not loaded reads `Air` |
| Worlds.GetBlockAt | src/world.js:23-36 | local cell l of loaded chunk k, taken as the world cell at k's origin plus l, reads that chunk's block at l |
| Worlds.StepAcrossBoundary | src/world.js:57-63 | a step in direction d leaves the cell's chunk iff the cell lies on that chunk face, and then lands in the adjacent chunk in direction d |
| Worlds.NeighbourKeysExact | src/world.js:58-63 | the chunks rebuilt after an edit at local cell l are exactly the adjacent chunks across the faces l lies on |
| Worlds.NeighbourKeysDistinct | src/world.js:58-63 | no neighbour is listed twice and the edited chunk is never among them |
| Worlds.RebuildFacts | src/world.js:66-72 | `updateChunkMesh` changes no block and no other chunk, leaves a loaded target clean, and never creates a missing one |
| Worlds.RebuildEachEffect | src/world.js:58-72 | a run of neighbour rebuilds leaves the blocks alone, rebuilds each listed loaded chunk against the world as it stands, and leaves every other chunk as it was |
| Worlds.Load | src/world.js:43-48 | after loading, the loaded keys are the old ones plus the edited chunk |
| Worlds.Written | src/world.js:38-54 | the write adds the edited chunk to the loaded keys and leaves it dirty |
| Worlds.WrittenBlocks | src/world.js:38-54 | after the write, the target cell reads the new type and every other cell reads as before, or as generated in a freshly loaded chunk |
| Worlds.SetBlockOrder | src/world.js:54-63 | `setBlock` is the write followed by rebuilds of the edited chunk first and then its boundary neighbours, each chunk at most once |
| Worlds.SetBlockSame | src/world.js:55-63 | the rebuilds after the write change meshes and dirty flags only |
| Worlds.SetBlockBlocks | src/world.js:38-64 | `setBlock` loads exactly the edited chunk if missing and never a neighbour; afterwards `getBlock` at the cell returns the written type and every other cell is unchanged |
| Worlds.SetBlockMeshes | src/world.js:55-72 | the edited chunk and every loaded boundary neighbour end clean with a mesh rebuilt against the final world; every other chunk is untouched |
| Worlds.SetBlockNeighbourRebuilt | src/world.js:57-72 | a loaded neighbour across a boundary face of the edit ends with the mesh of the world after the edit |
| Worlds.SetBlockWellFormed | src/world.js:43-48 | `setBlock` keeps every chunk stored under its own coordinate |
| Worlds.StreamKeys | src/world.js:81-92 | the streaming loops visit each chunk of the 9 × 2 × 9 target square exactly once and nothing else |
| Worlds.StreamOrderIsTarget | src/world.js:81-92 | the 162 keys in loop order are exactly the target set, with no repeats |
| Worlds.TargetSize | src/world.js:79-92 | the target set has (2 × 4 + 1)² × 2 = 162 chunks |
| Worlds.LoadTargets | src/world.js:84-89 | the loading pass adds exactly the missing target chunks |
| Worlds.Unload | src/world.js:95-100 | the unloading pass keeps exactly the loaded chunks inside the target |
| Worlds.RebuildAll | src/world.js:103-105 | the final pass leaves every loaded chunk clean and changes no block |
| Worlds.UpdateEffect | src/world.js:74-106 | after `update` the loaded set is exactly the target square around the player's chunk column, every chunk is clean, kept chunks keep their blocks, and new ones hold generated terrain |
| Worlds.UpdateIgnoresHeight | src/world.js:74-77 | the player's y coordinate has no effect on `update` |
| Worlds.UpdateKeepsNearby | src/world.js:81-89 | the chunk under the player at layer 0 keeps its blocks, and so its edits, through `update` |
| Worlds.UpdateWellFormed | src/world.js:86-99 | `update` keeps every chunk stored under its own coordinate |
| Worlds.UpdateEachEffect | src/world.js:103-105 | calling `updateMesh` chunk by chunk rebuilds each listed chunk against the world as it was before the pass |
| Worlds.RebuildAllSequential | src/world.js:103-105 | the chunk-by-chunk pass gives the same world in every iteration order of the loaded chunks |
| Worlds.GetChunkMeshes | src/world.js:108-112 | the result holds the mesh of a loaded chunk exactly when that chunk's mesh field is set, and nothing else |
| Worlds.UpdateKeepsCleanMesh | src/world.js:74-106 | a clean chunk that stays in range comes out of `update` unchanged, mesh included, even when a neighbour was loaded or dropped in the same call |
| Worlds.StaleMeshReturned | src/world.js:103-112 | a dirty chunk whose rebuild finds no visible face still contributes its previous, now disposed, mesh to `getChunkMeshes` |
| Noise.Choice | src/noise.js:13 | the swap partner at step i lies in [0, i] |
| Noise.PermutationOfIdentity | src/noise.js:11-15 | a table with the same multiset of entries as 0..255 holds every value 0..255 exactly once |
| Noise.Seed | src/noise.js:10-18 | for any random numbers in [0,1), seeding leaves `p` a permutation of 0..255 and `p2` that permutation written out twice |
| Noise.DoubledIsTwice | src/noise.js:16-17 | filling `p2[i] = p[i & 255]` for i < 512 gives `p` followed by `p` |
| Noise.P2IsPerm | src/noise.js:16-17 | every `p2` entry is the `p` entry its index wraps to |
| Noise.Low8 | src/noise.js:30-31 | `n & 255` lies in [0,256) and is congruent to n modulo 256, negative n included |
| Noise.Lookup2 | src/noise.js:30-37 | the 2D cell indices X, Y are in [0,255], A and B at most 510, and every `p2` index read (A+1, B+1 included) is below 512 |
| Noise.Lookup3 | src/noise.js:46-56 | the 3D indices X, Y, Z are in [0,255], and AA, AB, BA, BB are at most 510, so their `+ 1` lookups stay below 512 |
| Noise.Hashes2FromIndices | src/noise.js:36-42 | the four gradient hashes of a 2D cell are the `p2` entries at AA, BA, AB, BB |
| Noise.Hashes2AreLatticeHashes | src/noise.js:29-43 | each 2D corner's gradient hash depends only on that corner's own lattice coordinates |
| Noise.LatticeHashPeriodic | src/noise.js:30-37 | lattice hashes repeat every 256 lattice points along each axis, in 2D and 3D |
| Noise.Hashes2Shared | src/noise.js:29-43 | neighbouring 2D cells read the same hash at their shared corners, and the hashes repeat with period 256 |
| Noise.Hashes3FromIndices | src/noise.js:55-65 | the eight gradient hashes of a 3D cell are the `p2` entries at AA, BA, AB, BB and one past each |
| Noise.Hashes3AreLatticeHashes | src/noise.js:45-66 | each 3D corner's gradient hash depends only on that corner's own lattice coordinates |
| Noise.Hashes3Shared | src/noise.js:45-66 | neighbouring 3D cells read the same hash at their shared corners |
| Noise.CellCoord | src/noise.js:30-33 | the lattice cell of an input is the integer i with i ≤ x < i + 1 |
| Noise.InputPeriod | src/noise.js:29-56 | on real inputs, `Math.floor` followed by `& 255` makes the 2D and 3D index arithmetic repeat when any input moves by 256 |
| Noise.GradIsDot | src/noise.js:22-27 | the sign-and-select rule of `grad` equals the dot product of the offset with the gradient table entry of `hash & 15` |
| Noise.GradTableIsEdges | src/noise.js:22-27 | all sixteen gradients point to cube edge midpoints, the first twelve are distinct, and they cover all twelve edge directions |
| Inventories.FindStack | src/inventory.js:32-37 | returns the first slot holding the type, or nothing exactly when no slot holds it |
| Inventories.FirstEmpty | src/inventory.js:38-43 | returns the first empty slot, or nothing exactly when every slot is occupied |
| Inventories.AddTo | src/inventory.js:32-43 | adding to a row fails exactly when every slot holds a stack of another type |
| Inventories.AddItem | src/inventory.js:30-59 | `addItem` succeeds iff some hotbar or main slot is empty or holds the type; on failure nothing changes; the selection never changes |
| Inventories.AddToEffect | src/inventory.js:32-57 | a successful add changes exactly one slot (the first stack of that type, else the first empty slot), which then holds the type; the type's count rises by `count` and no other count changes |
| Inventories.AddItemCounts | src/inventory.js:30-59 | on success the inventory holds `count` more of the type, and in every case the same number of every other type |
| Inventories.AddItemHotbarFirst | src/inventory.js:31-57 | the main slots change only when the hotbar has no stack of the type and no empty slot, and then the hotbar is unchanged |
| Inventories.AddToKeepsRow | src/inventory.js:32-43 | adding keeps a row free of repeated types, and keeps its stacks solid and non-empty |
| Inventories.AddItemValid | src/inventory.js:30-59 | adding a positive count of a solid type keeps the inventory invariant |
| Inventories.EmptyValid | src/inventory.js:22-24 | the all-empty inventory with selection 0 satisfies the invariant |
| Inventories.NewInventory | src/inventory.js:21-28 | a new inventory is all empty except four wood in hotbar slot 0, with slot 0 selected |
| Inventories.NewInventoryValid | src/inventory.js:21-28 | a new inventory satisfies the invariant |
| Inventories.GetSelectedItem | src/inventory.js:61-63 | the result is the selected hotbar slot, or nothing when the index is outside the hotbar |
| Inventories.RemoveSelectedItem | src/inventory.js:65-75 | removal succeeds iff a stack is selected; on failure nothing changes; only the selected hotbar slot can change |
| Inventories.RemoveSelectedCounts | src/inventory.js:65-75 | removal lowers the selected type's count by `count`, or by the whole stack when that leaves nothing, and leaves every other count alone |
| Inventories.RemoveSelectedValid | src/inventory.js:65-75 | removal keeps the inventory invariant, since a stack left with nothing is cleared |
| Crafting.CheckRecipe | src/crafting.js:17-28 | any product is a positive stack of a solid block |
| Crafting.CheckRecipeFollowsTable | src/crafting.js:3-28 | a grid holding a recipe's input yields that recipe's output, and a grid that yields a product holds the input of a recipe with that output |
| Crafting.RecipesExclusive | src/crafting.js:20-26 | no grid matches both rules |
| Crafting.EmptyCellsAlike | src/crafting.js:20 | a null cell and an air cell are interchangeable in every position |
| Players.Scroll | src/player.js:36-40 | from a selection in [0,9) one wheel step stays in [0,9) |
| Players.ScrollInverse | src/player.js:36-40 | a step back undoes a step forward and vice versa |
| Players.ScrollCycles | src/player.js:36-40 | n forward steps select (i + n) mod 9 and n backward steps select (i − n) mod 9 |
| Players.ScrollHotbar | src/player.js:34-42 | the wheel changes only the selection and keeps the inventory invariant |
| Players.BreakBlock | src/player.js:120-139 | with no target, or air at the target, nothing changes |
| Players.PlaceBlock | src/player.js:141-169 | with nothing selected, no target, or an overlap with the player, nothing changes |
| Players.BreakBlockEffect | src/player.js:132-135 | breaking a solid block of type t leaves air at the cell, every other cell and the loaded chunks unchanged, and one more t in the inventory when there is room (the inventory is unchanged when there is none); other types keep their counts |
| Players.PlaceBlockEffect | src/player.js:163-165 | placing writes the selected type at the target, leaves every other loaded cell unchanged, and removes exactly one of that type from the inventory; other types keep their counts |
| Players.BreakKeepsInvariants | src/player.js:132-135 | breaking keeps the inventory invariant and every chunk stored under its own coordinate |
| Players.PlaceKeepsInvariants | src/player.js:163-165 | placing keeps the inventory invariant and every chunk stored under its own coordinate |
| Players.RemoveLeavesRoom | src/player.js:164-165 | after one block is taken from the selected stack, a block of that type can always be added again |
| Players.PlaceThenBreak | src/player.js:120-169 | placing a block and breaking it again restores every type's count and leaves air at the cell |

## Left out

- Rendering objects (geometry, materials, colours, scene add/remove) are not modelled. They are calls into a graphics library. A mesh is its face list plus integer buffers, and disposal is the `released` flag.
- The `BLOCK_DATA` colour and name table is not modelled: it is display data only.
- Floating-point noise values are not modelled: `fade`, `lerp`, the interpolated outputs of `perlin2`/`perlin3`, and the arithmetic in `getHeight`. They are float computations. `getHeight` is the `HeightFn` parameter of every operation that generates terrain.
- `Math.random` is not modelled. The shuffle takes its random numbers in [0,1) as an input sequence. The product `random * (i + 1)` is computed in exact real arithmetic, and float rounding is not modelled.
- Non-finite noise inputs (NaN, infinities) are not modelled; `Math.floor` of them is not an integer.
- Physics, gravity, collision, the ray cast and the player/block box test are float vector code and library calls. Their results enter as inputs: the target cell (or none), and whether the placed block overlaps the player.
- The pointer-lock guard of the mouse and wheel handlers and the hotbar UI refresh are input and display handling. The model starts at the point where an action happens.
- Zombies, the day/night cycle, the UI, controls, the game loop and the browser smoke test are not part of this model.
- Worlds.GetChunkMeshes: returns a map from chunk coordinate to mesh rather than an array in the map's insertion order. The order is not modelled; the contents are.
- Worlds.Update: the final rebuild pass is stated for all loaded chunks at once. `RebuildAllSequential` shows that running it chunk by chunk, in any order, gives the same world.
- ChunkKeys.Key: writes integers as plain decimal digits. JavaScript switches to exponent notation at 10²¹, far beyond any reachable chunk coordinate.
- Chunks.SetBlock: models a typed-array write outside the array as ignored. The world only writes local coordinates in [0,16), where this never happens.
- Noise.Valid: asks only for byte entries and the doubled copy, not that `p` is a permutation. No lookup depends on it; `Seed` proves the permutation separately.
